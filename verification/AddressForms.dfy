/**
 The text forms of an IPv6 address (section 2.2 of RFC 4291) against the language of the parser:
 every form parses to its sixteen bytes, and what else the parser takes is pinned down exactly.
 */
module AddressForms {
  import opened Octets
  import opened Wrappers
  import opened TextFields
  import opened InetPton4
  import opened AddressText

  /** One to four hexadecimal digits, in either case. */
  predicate IsHextet(f: string) {
    1 <= |f| <= 4 && AllHex(f)
  }

  ghost predicate Hextets(fs: seq<string>) {
    forall k :: 0 <= k < |fs| ==> IsHextet(fs[k])
  }

  /** Hextets, the last of which may be a dotted quad instead. */
  ghost predicate Tail(fs: seq<string>) {
    forall k :: 0 <= k < |fs| ==> IsHextet(fs[k]) || (k == |fs| - 1 && IsQuad(fs[k]))
  }

  ghost predicate FullForm(src: string, fs: seq<string>) {
    Tail(fs) && |Bytes(fs)| == 16 && src == Join(fs, ':')
  }

  /** A double colon stands for one or more groups of zeros. */
  ghost predicate CompressedForm(src: string, pre: seq<string>, post: seq<string>) {
    && Hextets(pre) && Tail(post) && |Bytes(pre)| + |Bytes(post)| <= 14
    && src == Join(pre, ':') + "::" + Join(post, ':')
  }

  ghost predicate IsTextForm(src: string) {
    (exists fs :: FullForm(src, fs)) || (exists pre, post :: CompressedForm(src, pre, post))
  }

  lemma HextetIsGroup(f: string)
    requires IsHextet(f)
    ensures IsGroup(f) && ':' !in f && f != []
  {
    var f3, f2, f1 := f[..|f| - 1], if |f| > 1 then f[..|f| - 2] else [], if |f| > 2 then f[..|f| - 3] else [];
    assert |f| > 1 ==> f3[..|f3| - 1] == f2;
    assert |f| > 2 ==> f2[..|f2| - 1] == f1;
    assert |f1| <= 1 && (|f1| == 1 ==> f1[..0] == []);
    assert Number(f1, 16) <= 0xf;
    assert Number(f2, 16) <= 0xff;
    assert Number(f3, 16) <= 0xfff;
  }

  lemma HextetFields(fs: seq<string>)
    requires Hextets(fs)
    ensures NoneHolds(fs, ':') && forall k :: 0 <= k < |fs| ==> fs[k] != [] && IsGroup(fs[k])
  {
    forall k | 0 <= k < |fs| ensures ':' !in fs[k] && fs[k] != [] && IsGroup(fs[k]) {
      HextetIsGroup(fs[k]);
    }
  }

  lemma TailFields(fs: seq<string>)
    requires Tail(fs)
    ensures NoneHolds(fs, ':')
    ensures forall k :: 0 <= k < |fs| ==> fs[k] != [] && (IsGroup(fs[k]) || (k == |fs| - 1 && IsQuad(fs[k])))
  {
    forall k | 0 <= k < |fs|
      ensures ':' !in fs[k] && fs[k] != [] && (IsGroup(fs[k]) || (k == |fs| - 1 && IsQuad(fs[k])))
    {
      if IsHextet(fs[k]) {
        HextetIsGroup(fs[k]);
      } else {
        QuadCharacters(fs[k]);
      }
    }
  }

  /** A text starts with a colon exactly when its first field is empty and it has a second one. */
  lemma LeadingColon(s: string)
    ensures s != [] && s[0] == ':' <==> |Split(s, ':')| > 1 && Split(s, ':')[0] == []
  {
    if s != [] {
      var one: string := [s[0]];
      var none: string := [];
      assert s == one + s[1..] && one[..0] == none && none + [s[0]] == one;
      SplitConcat(one, s[1..], ':');
      assert Split(one, ':') == if s[0] == ':' then [[], []] else [one];
    }
  }

  /** The dropped colon can always be put back. */
  lemma BodyInjective(a: string, b: string)
    requires Body(a).Some? && Body(a) == Body(b)
    ensures a == b
  {
    var body := Body(a).value;
    assert a == if body != [] && body[0] == ':' then [':'] + body else body;
    assert b == if body != [] && body[0] == ':' then [':'] + body else body;
  }

  lemma NoGap(fs: seq<string>)
    requires |fs| > 0 && Tail(fs)
    ensures InnerOk(fs[..|fs| - 1]) && LastOk(fs[|fs| - 1]) && GapAt(fs[..|fs| - 1]) == -1
  {
    var inner := fs[..|fs| - 1];
    TailFields(fs);
    GapIsFirstEmpty(inner);
    forall k | 0 <= k < |inner| ensures IsGroup(inner[k]) {
      assert inner[k] == fs[k];
    }
  }

  lemma FullFormParses(src: string, fs: seq<string>)
    requires FullForm(src, fs)
    ensures Parse6(src) == Some(Bytes(fs))
  {
    TailFields(fs);
    SplitJoin(fs, ':');
    LeadingColon(src);
    NoGap(fs);
  }

  ghost function OrEmpty(fs: seq<string>): seq<string> {
    if fs == [] then [[]] else fs
  }

  /** The fields of a text with a double colon between pre and post. */
  ghost function GapAround(pre: seq<string>, post: seq<string>): seq<string> {
    pre + ([[]] + OrEmpty(post))
  }

  ghost predicate HasFields(src: string, fs: seq<string>) {
    Body(src).Some? && Split(Body(src).value, ':') == fs
  }

  lemma ColonFirst(b: string)
    ensures Split([':'] + b, ':') == [[]] + Split(b, ':')
  {
    assert [':'] + b == [] + [':'] + b;
    SplitAtSeparator([], b, ':');
  }

  lemma DoubleColon(a: string, b: string)
    ensures Split(a + "::" + b, ':') == Split(a, ':') + ([[]] + Split(b, ':'))
  {
    ColonFirst(b);
    assert a + "::" + b == a + [':'] + ([':'] + b);
    SplitAtSeparator(a, [':'] + b, ':');
  }

  lemma CompressedFields(pre: seq<string>, post: seq<string>)
    requires Hextets(pre) && Tail(post)
    ensures HasFields(Join(pre, ':') + "::" + Join(post, ':'), GapAround(pre, post))
  {
    var a, b := Join(pre, ':'), Join(post, ':');
    var src := a + "::" + b;
    WholeFields(pre, post);
    if pre == [] {
      LeadingDoubleColon(b);
      assert src == "::" + b;
    } else {
      HextetIsGroup(pre[0]);
      OwnFields(src);
    }
  }

  lemma LeadingDoubleColon(b: string)
    ensures HasFields("::" + b, [[]] + Split(b, ':'))
  {
    ColonFirst(b);
    var src := "::" + b;
    assert src[0] == ':' && src[1] == ':' && src[1..] == [':'] + b;
  }

  lemma OwnFields(src: string)
    requires Split(src, ':')[0] != []
    ensures HasFields(src, Split(src, ':'))
  {
    LeadingColon(src);
  }

  lemma WholeFields(pre: seq<string>, post: seq<string>)
    requires Hextets(pre) && Tail(post)
    ensures Split(Join(pre, ':') + "::" + Join(post, ':'), ':') == OrEmpty(pre) + ([[]] + OrEmpty(post))
    ensures Split(Join(post, ':'), ':') == OrEmpty(post)
  {
    HextetFields(pre);
    TailFields(post);
    SplitJoin(pre, ':');
    SplitJoin(post, ':');
    DoubleColon(Join(pre, ':'), Join(post, ':'));
  }

  lemma GapInner(pre: seq<string>, post: seq<string>)
    requires Hextets(pre) && Tail(post)
    ensures var F := GapAround(pre, post);
            InnerOk(F[..|F| - 1]) && LastOk(F[|F| - 1]) && GapAt(F[..|F| - 1]) == |pre|
  {
    var P := OrEmpty(post);
    var F := pre + ([[]] + P);
    var inner := F[..|F| - 1];
    HextetFields(pre);
    TailFields(post);
    GapIsAt(inner, |pre|);
    forall k | 0 <= k < |inner| && k != |pre| ensures IsGroup(inner[k]) {
      if k < |pre| {
        assert inner[k] == pre[k];
      } else {
        assert post != [] && inner[k] == post[k - |pre| - 1];
      }
    }
    assert F[|F| - 1] == P[|P| - 1];
  }

  lemma GapBytes(pre: seq<string>, post: seq<string>)
    ensures Bytes(GapAround(pre, post)) == Bytes(pre) + Bytes(post)
  {
    BytesConcat(pre, [[]] + OrEmpty(post));
    BytesConcat([[]], OrEmpty(post));
    EmptyBytes();
    assert [] + Bytes(post) == Bytes(post);
  }

  /** What fields mean that have the gap behind the first of them. */
  lemma GapMeaning(fs: seq<string>, pre: seq<string>, after: seq<byte>)
    requires |pre| < |fs| - 1 && fs[..|pre|] == pre && InnerOk(fs[..|fs| - 1]) && LastOk(fs[|fs| - 1])
    requires GapAt(fs[..|fs| - 1]) == |pre| && Bytes(fs) == Bytes(pre) + after && |Bytes(fs)| <= 16
    ensures Acceptable(fs) && Meaning(fs) == Spread(Bytes(pre), after)
  {
    assert Bytes(fs)[|Bytes(pre)|..] == after;
  }

  /** The fields around a gap, whatever room is left for it. */
  lemma GapFields(pre: seq<string>, post: seq<string>)
    requires Hextets(pre) && Tail(post) && |Bytes(pre)| + |Bytes(post)| <= 16
    ensures var F := GapAround(pre, post);
            Acceptable(F) && Meaning(F) == Spread(Bytes(pre), Bytes(post))
  {
    var F := GapAround(pre, post);
    GapInner(pre, post);
    GapBytes(pre, post);
    assert F[..|pre|] == pre;
    GapMeaning(F, pre, Bytes(post));
  }

  lemma EmptyBytes()
    ensures Bytes([[]]) == []
  {
    var fs: seq<string> := [[]];
    assert fs[..0] == [];
  }

  lemma GapIsAt(fs: seq<string>, g: nat)
    requires g < |fs| && fs[g] == [] && forall k :: 0 <= k < g ==> fs[k] != []
    ensures GapAt(fs) == g
  {
    GapIsFirstEmpty(fs);
  }

  /** In terms of Spread, which with room for the gap puts zeros between the two. */
  lemma CompressedFormSpreads(src: string, pre: seq<string>, post: seq<string>)
    requires CompressedForm(src, pre, post)
    ensures Parse6(src) == Some(Spread(Bytes(pre), Bytes(post)))
  {
    CompressedFields(pre, post);
    GapFields(pre, post);
    ParsesFields(src, GapAround(pre, post));
  }

  lemma CompressedFormParses(src: string, pre: seq<string>, post: seq<string>)
    requires CompressedForm(src, pre, post)
    ensures Parse6(src) == Some(Bytes(pre) + Zeros(16 - |Bytes(pre)| - |Bytes(post)|) + Bytes(post))
  {
    CompressedFormSpreads(src, pre, post);
  }

  lemma ParsesFields(src: string, fs: seq<string>)
    requires HasFields(src, fs) && Acceptable(fs)
    ensures Parse6(src) == Some(Meaning(fs))
  {
  }

  /** Accepted beyond the text forms: one colon too many at the end. */
  lemma TrailingColonAccepted(fs: seq<string>)
    requires Hextets(fs) && |fs| == 8
    ensures Parse6(Join(fs, ':') + ":") == Some(Bytes(fs)) && |Bytes(fs)| == 16
  {
    var src, F := Join(fs, ':') + ":", fs + [[]];
    TrailingFields(fs);
    HextetFields(fs);
    assert F[..8] == fs;
    GapIsFirstEmpty(fs);
    HextetBytes(fs);
    BytesConcat(fs, [[]]);
    EmptyBytes();
    assert Bytes(F) == Bytes(fs) + [] == Bytes(fs);
    ParsesFields(src, F);
    assert Meaning(F) == Bytes(F);
  }

  lemma TrailingFields(fs: seq<string>)
    requires Hextets(fs) && |fs| > 0
    ensures HasFields(Join(fs, ':') + ":", fs + [[]])
  {
    var src := Join(fs, ':') + ":";
    HextetFields(fs);
    SplitJoin(fs, ':');
    SplitAtSeparator(Join(fs, ':'), [], ':');
    assert src == Join(fs, ':') + [':'] + [];
    LeadingColon(src);
    assert Split(src, ':')[0] == fs[0];
  }

  /** Accepted beyond the text forms: a double colon beside a whole address, which zeroes what is after it. */
  lemma GapBesideWholeAddress(pre: seq<string>, post: seq<string>)
    requires Hextets(pre) && Tail(post) && |Bytes(pre)| + |Bytes(post)| == 16
    ensures Parse6(Join(pre, ':') + "::" + Join(post, ':')) == Some(Bytes(pre) + Zeros(|Bytes(post)|))
  {
    CompressedFields(pre, post);
    GapFields(pre, post);
    ParsesFields(Join(pre, ':') + "::" + Join(post, ':'), GapAround(pre, post));
    SpreadFull(Bytes(pre), Bytes(post));
  }

  lemma SpreadFull(before: seq<byte>, after: seq<byte>)
    requires |before| + |after| == 16
    ensures Spread(before, after) == before + Zeros(|after|)
  {
  }

  lemma {:induction false} HextetBytes(fs: seq<string>)
    requires Hextets(fs)
    ensures |Bytes(fs)| == 2 * |fs|
  {
    if fs != [] {
      HextetBytes(fs[..|fs| - 1]);
      HextetIsGroup(fs[|fs| - 1]);
    }
  }

  /**
   What a caller can check on the fields to rule the extra texts out: no group over four digits, no
   single colon at the end, and room for a group of zeros where the gap is.
   */
  ghost predicate Plain(fs: seq<string>)
    requires |fs| > 0
  {
    && (forall k :: 0 <= k < |fs| ==> AllHex(fs[k]) ==> |fs[k]| <= 4)
    && (fs[|fs| - 1] == [] ==> |fs| > 1 && fs[|fs| - 2] == [])
    && (GapAt(fs[..|fs| - 1]) >= 0 ==> |Bytes(fs)| <= 14)
  }

  ghost predicate PlainText(src: string) {
    Body(src).Some? && Plain(Split(Body(src).value, ':'))
  }

  /** The accepted plain texts are the text forms, and there are no others. */
  lemma PlainTextsAreTextForms(src: string)
    ensures Parse6(src).Some? && PlainText(src) <==> IsTextForm(src)
  {
    if Parse6(src).Some? && PlainText(src) {
      AcceptedPlainIsTextForm(src);
    }
    if fs :| FullForm(src, fs) {
      FullFormIsPlain(src, fs);
    }
    if pre, post :| CompressedForm(src, pre, post) {
      CompressedFormIsPlain(src, pre, post);
    }
  }

  lemma FullFormIsPlain(src: string, fs: seq<string>)
    requires FullForm(src, fs)
    ensures Parse6(src).Some? && PlainText(src)
  {
    FullFormParses(src, fs);
    TailFields(fs);
    SplitJoin(fs, ':');
    LeadingColon(src);
    NoGap(fs);
    ShortGroups(fs);
  }

  lemma ShortGroups(fs: seq<string>)
    requires Tail(fs)
    ensures forall k :: 0 <= k < |fs| ==> AllHex(fs[k]) ==> |fs[k]| <= 4
  {
    forall k | 0 <= k < |fs| && AllHex(fs[k]) ensures |fs[k]| <= 4 {
      if IsQuad(fs[k]) {
        QuadCharacters(fs[k]);
      }
    }
  }

  lemma CompressedFormIsPlain(src: string, pre: seq<string>, post: seq<string>)
    requires CompressedForm(src, pre, post)
    ensures Parse6(src).Some? && PlainText(src)
  {
    var F := GapAround(pre, post);
    CompressedFormParses(src, pre, post);
    CompressedFields(pre, post);
    GapBytes(pre, post);
    GapIsPlain(pre, post);
  }

  lemma GapIsPlain(pre: seq<string>, post: seq<string>)
    requires Hextets(pre) && Tail(post) && |Bytes(GapAround(pre, post))| <= 14
    ensures Plain(GapAround(pre, post))
  {
    var F := GapAround(pre, post);
    ShortGroups(post);
    forall k | 0 <= k < |F| && AllHex(F[k]) ensures |F[k]| <= 4 {
      if k < |pre| {
        assert IsHextet(pre[k]);
      } else if k > |pre| && post != [] {
        assert F[k] == post[k - |pre| - 1];
      }
    }
    if post == [] {
      assert F[|F| - 2] == [];
    } else {
      assert F[|F| - 1] == post[|post| - 1];
      TailNotEmpty(post, |post| - 1);
    }
  }

  lemma TailNotEmpty(fs: seq<string>, k: nat)
    requires Tail(fs) && k < |fs|
    ensures fs[k] != []
  {
    if IsQuad(fs[k]) {
      QuadCharacters(fs[k]);
    }
  }

  /** Hextets or a final quad wherever a field is not empty, and only the gap is, or the end beside it. */
  ghost predicate PlainFields(F: seq<string>, g: int) {
    && (forall k :: 0 <= k < |F| && F[k] != [] ==> IsHextet(F[k]) || (k == |F| - 1 && IsQuad(F[k])))
    && (forall k :: 0 <= k < |F| && F[k] == [] ==> k == g || (k == |F| - 1 && g == |F| - 2))
  }

  lemma AcceptedPlainFields(F: seq<string>)
    requires Acceptable(F) && Plain(F)
    ensures PlainFields(F, GapAt(F[..|F| - 1]))
  {
    forall k | 0 <= k < |F| && F[k] != [] ensures IsHextet(F[k]) || (k == |F| - 1 && IsQuad(F[k])) {
      EveryFieldOk(F, k);
    }
    forall k | 0 <= k < |F| && F[k] == [] ensures k == GapAt(F[..|F| - 1]) || (k == |F| - 1 && GapAt(F[..|F| - 1]) == |F| - 2) {
      EveryFieldOk(F, k);
      if k == |F| - 1 {
        EveryFieldOk(F, k - 1);
      }
    }
  }

  lemma AcceptedPlainIsTextForm(src: string)
    requires Parse6(src).Some? && PlainText(src)
    ensures IsTextForm(src)
  {
    var body := Body(src).value;
    var F := Split(body, ':');
    var g := GapAt(F[..|F| - 1]);
    JoinSplit(body, ':');
    AcceptedPlainFields(F);
    if g == -1 {
      LeadingColon(body);
      assert FullForm(src, F);
    } else {
      GapIsFirstEmpty(F[..|F| - 1]);
      PlainGapIsCompressed(src, F, g);
    }
  }

  lemma PlainGapIsCompressed(src: string, F: seq<string>, g: nat)
    requires HasFields(src, F) && PlainFields(F, g) && g < |F| - 1 && F[g] == [] && |Bytes(F)| <= 14
    ensures exists pre, post :: CompressedForm(src, pre, post)
  {
    var pre, post := F[..g], if g == |F| - 2 && F[|F| - 1] == [] then [] else F[g + 1..];
    var s2 := Join(pre, ':') + "::" + Join(post, ':');
    PlainGapParts(F, g);
    CompressedFields(pre, post);
    SameFields(src, s2, F);
    GapBytes(pre, post);
    assert CompressedForm(src, pre, post);
  }

  lemma PlainGapParts(F: seq<string>, g: nat)
    requires PlainFields(F, g) && g < |F| - 1 && F[g] == []
    ensures var post := if g == |F| - 2 && F[|F| - 1] == [] then [] else F[g + 1..];
            Hextets(F[..g]) && Tail(post) && F == GapAround(F[..g], post)
  {
  }

  /** The fields determine the text. */
  lemma SameFields(a: string, b: string, fs: seq<string>)
    requires HasFields(a, fs) && HasFields(b, fs)
    ensures a == b
  {
    JoinSplit(Body(a).value, ':');
    JoinSplit(Body(b).value, ':');
    BodyInjective(a, b);
  }
}
