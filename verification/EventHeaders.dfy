/**
 The headers of an event that all bear one name, as a caller fills them by adding values. A value that
 looks like an array is taken apart, and an empty value clears the headers.
 */
module EventHeaders {
  import opened Sequences

  const ARRAY: string := "ARRAY::"

  /** A header; its items are empty until a second value is pushed onto it. */
  datatype Header = Header(value: string, items: seq<string>)

  predicate IsArray(s: string) {
    ARRAY <= s
  }

  /** The position of the first "|:", the length when there is none. */
  function Delimiter(s: string): (d: nat)
    ensures d <= |s| && (d < |s| ==> d + 2 <= |s|)
  {
    if |s| < 2 then |s| else if s[0] == '|' && s[1] == ':' then 0 else 1 + Delimiter(s[1..])
  }

  /** The first of all places where there is one, up to the very end. */
  lemma {:induction false} DelimiterIsFirst(s: string)
    ensures Delimiter(s) < |s| ==> s[Delimiter(s)] == '|' && s[Delimiter(s) + 1] == ':'
    ensures forall e :: 0 <= e < Delimiter(s) && e + 1 < |s| ==> !(s[e] == '|' && s[e + 1] == ':')
  {
    if |s| >= 2 && !(s[0] == '|' && s[1] == ':') {
      DelimiterIsFirst(s[1..]);
      forall e | 0 <= e < Delimiter(s) && e + 1 < |s| ensures !(s[e] == '|' && s[e + 1] == ':') {
        if e > 0 {
          assert s[1..][e - 1] == s[e] && s[1..][e] == s[e + 1];
        }
      }
    }
  }

  function Pieces(s: string): (ps: seq<string>)
    ensures |ps| > 0 && forall i :: 0 <= i < |ps| ==> |ps[i]| <= |s|
  {
    var d := Delimiter(s);
    if d == |s| then [s] else [s[..d]] + Pieces(s[d + 2..])
  }

  function Join(ps: seq<string>): string
    requires |ps| > 0
  {
    if |ps| == 1 then ps[0] else ps[0] + "|:" + Join(ps[1..])
  }

  function Render(items: seq<string>): string
    requires |items| > 0
  {
    if |items| == 1 then items[0] else ARRAY + Join(items)
  }

  function ItemsOf(h: Header): (items: seq<string>)
    ensures |items| > 0
  {
    if h.items == [] then [h.value] else h.items
  }

  /** One more item of a header, whose value turns into an array. */
  function Extended(h: Header, item: string): Header {
    var items := ItemsOf(h) + [item];
    Header(Render(items), items)
  }

  /** A value pushed: onto the first header if there is one. */
  function Pushed(hs: seq<Header>, data: string): seq<Header>
    decreases |data|, 0, 0
  {
    if hs != [] then hs[0 := Extended(hs[0], data)]
    else if data == "" then []
    else if !IsArray(data) then [Header(data, [data])]
    else if |data| < 8 then []
    else PushedAll([], Pieces(data[7..]), |data| - 7)
  }

  function PushedAll(hs: seq<Header>, ps: seq<string>, longest: nat): seq<Header>
    requires forall i :: 0 <= i < |ps| ==> |ps[i]| <= longest
    decreases longest, 1, |ps|
  {
    if ps == [] then hs else PushedAll(Pushed(hs, ps[0]), ps[1..], longest)
  }

  function WithArray(hs: seq<Header>, val: string): seq<Header>
    requires IsArray(val)
  {
    if |val| < 8 then hs else PushedAll(hs, Pieces(val[7..]), |val| - 7)
  }

  /** A value added at the bottom. */
  function Added(hs: seq<Header>, data: string): seq<Header> {
    if data == "" then [] else if IsArray(data) then WithArray(hs, data) else hs + [Header(data, [])]
  }

  function Recorded(keys: seq<string>): seq<Header> {
    if keys == [] then [] else Added(Recorded(keys[..|keys| - 1]), keys[|keys| - 1])
  }

  function Values(hs: seq<Header>): (vs: seq<string>)
    ensures |vs| == |hs| && forall i :: 0 <= i < |hs| ==> vs[i] == hs[i].value
  {
    seq(|hs|, i requires 0 <= i < |hs| => hs[i].value)
  }

  method Strstr(s: string) returns (d: nat)
    ensures d == Delimiter(s)
  {
    d := 0;
    while d + 2 <= |s| && !(s[d] == '|' && s[d + 1] == ':')
      invariant d <= |s| && Delimiter(s) == d + Delimiter(s[d..])
    {
      d := d + 1;
    }
    if d + 2 > |s| {
      d := |s|;
    }
  }

  lemma NextPiece(pieces: seq<string>, rest: string)
    requires Delimiter(rest) < |rest|
    ensures var d := Delimiter(rest); (pieces + [rest[..d]]) + Pieces(rest[d + 2..]) == pieces + Pieces(rest)
  {
    var d := Delimiter(rest);
    assert Pieces(rest) == [rest[..d]] + Pieces(rest[d + 2..]);
    ConcatAssociates(pieces, [rest[..d]], Pieces(rest[d + 2..]));
  }

  /** Takes a text apart at each "|:". */
  method Separate(buf: string) returns (pieces: seq<string>)
    ensures pieces == Pieces(buf)
  {
    pieces := [];
    var rest := buf;
    var d := Strstr(rest);
    while d < |rest|
      invariant d == Delimiter(rest) && pieces + Pieces(rest) == Pieces(buf)
      decreases |rest|
    {
      var piece, more := rest[..d], rest[d + 2..];
      NextPiece(pieces, rest);
      pieces, rest := pieces + [piece], more;
      d := Strstr(rest);
    }
    pieces := pieces + [rest];
  }

  class Event {
    var headers: seq<Header>

    constructor ()
      ensures headers == []
    {
      headers := [];
    }

    method AddHeader(data: string)
      modifies this
      ensures headers == Added(old(headers), data)
    {
      if data == "" {
        headers := [];
      } else if IsArray(data) {
        AddArray(data);
      } else {
        headers := headers + [Header(data, [])];
      }
    }

    method AddArray(val: string)
      requires IsArray(val)
      modifies this
      ensures headers == WithArray(old(headers), val)
      decreases |val|, 0
    {
      if |val| < 8 {
        return;
      }
      var pieces := Separate(val[7..]);
      for i := 0 to |pieces|
        invariant PushedAll(headers, pieces[i..], |val| - 7) == PushedAll(old(headers), pieces, |val| - 7)
      {
        PushHeader(pieces[i]);
        assert pieces[i..][1..] == pieces[i + 1..];
      }
    }

    method PushHeader(data: string)
      modifies this
      ensures headers == Pushed(old(headers), data)
      decreases |data|, 1
    {
      if headers != [] {
        var items := headers[0].items;
        if items == [] {
          items := [headers[0].value];
        }
        items := items + [data];
        headers := headers[0 := Header(Render(items), items)];
      } else if data != "" {
        if IsArray(data) {
          AddArray(data);
        } else {
          headers := [Header(data, [data])];
        }
      }
    }
  }

  /** An array of nothing changes nothing, an empty value clears, and an array of two items becomes one header. */
  lemma AddedEdges(hs: seq<Header>)
    ensures Added(hs, "ARRAY::") == hs && Added(hs, "") == []
    ensures Added([], "ARRAY::x|:y") == [Header("ARRAY::x|:y", ["x", "y"])]
  {
    TwoPieces();
    TwoPushed();
    assert "ARRAY::x|:y"[7..] == "x|:y";
  }

  lemma TwoPieces()
    ensures Pieces("x|:y") == ["x", "y"]
  {
    assert "x|:y"[1..] == "|:y";
    assert Delimiter("x|:y") == 1 && "x|:y"[..1] == "x" && "x|:y"[3..] == "y";
    assert Pieces("y") == ["y"];
  }

  lemma TwoPushed()
    ensures PushedAll([], ["x", "y"], 4) == [Header("ARRAY::x|:y", ["x", "y"])]
  {
    var one, two := [Header("x", ["x"])], ["x", "y"];
    assert Pushed([], "x") == one;
    assert two[1..] == ["y"] && ["y"][1..] == [];
    assert PushedAll(one, ["y"], 4) == PushedAll(Pushed(one, "y"), [], 4) == Pushed(one, "y");
    assert Join(two) == "x" + "|:" + "y" == "x|:y";
    assert Render(two) == ARRAY + "x|:y" == "ARRAY::x|:y";
    assert ["x"] + ["y"] == two;
  }

  // ---- When the headers hold exactly the values that were added ----

  lemma JoinMore(p: string, ps: seq<string>)
    requires ps != []
    ensures Join([p] + ps) == p + "|:" + Join(ps)
  {
    assert ([p] + ps)[1..] == ps;
  }

  lemma CutInTwo(s: string, d: nat)
    requires d + 2 <= |s| && s[d] == '|' && s[d + 1] == ':'
    ensures s == s[..d] + "|:" + s[d + 2..]
  {
    assert s[d..d + 2] == "|:";
    assert s == s[..d] + s[d..d + 2] + s[d + 2..];
  }

  lemma {:induction false} JoinPieces(s: string)
    ensures Join(Pieces(s)) == s
  {
    var d := Delimiter(s);
    if d < |s| {
      var first, tail := s[..d], s[d + 2..];
      JoinPieces(tail);
      JoinMore(first, Pieces(tail));
      DelimiterThere(s);
      CutInTwo(s, d);
    }
  }

  lemma {:induction false} DelimiterThere(s: string)
    ensures var d := Delimiter(s); d < |s| ==> s[d] == '|' && s[d + 1] == ':'
    ensures Delimiter(s[..Delimiter(s)]) == Delimiter(s)
  {
    var d := Delimiter(s);
    if |s| >= 2 && d > 0 {
      DelimiterThere(s[1..]);
      assert s[..d][1..] == s[1..][..d - 1];
    } else if d == |s| {
      assert s[..d] == s;
    }
  }

  lemma {:induction false} NoDelimiterBehind(s: string, n: nat)
    requires n <= |s| && Delimiter(s) == |s|
    ensures Delimiter(s[n..]) == |s| - n
  {
    if n > 0 {
      assert |s| >= 2 ==> Delimiter(s[1..]) == |s[1..]|;
      NoDelimiterBehind(s[1..], n - 1);
      assert s[1..][n - 1..] == s[n..];
    } else {
      assert s[n..] == s;
    }
  }

  lemma {:induction false} PiecesPlain(s: string, i: nat)
    requires i < |Pieces(s)|
    ensures Delimiter(Pieces(s)[i]) == |Pieces(s)[i]|
  {
    var d := Delimiter(s);
    DelimiterThere(s);
    if d < |s| && i > 0 {
      PiecesPlain(s[d + 2..], i - 1);
    }
  }

  /** A first piece leaves itself behind, or something shorter, or nothing. */
  lemma {:induction false} FirstPiece(p: string)
    requires Delimiter(p) == |p|
    ensures var r := Pushed([], p);
            r == [] || (|r| == 1 && r[0].items == [r[0].value] && |r[0].value| <= |p| && r[0].value != "")
    ensures Pushed([], p) != [] && |Pushed([], p)[0].value| == |p| ==> p != "" && !IsArray(p)
    decreases |p|
  {
    if IsArray(p) && |p| >= 8 {
      NoDelimiterBehind(p, 7);
      var q := p[7..];
      assert Pieces(q) == [q];
      FirstPiece(q);
      assert PushedAll([], [q], |p| - 7) == PushedAll(Pushed([], q), [q][1..], |p| - 7) == Pushed([], q);
    }
  }

  /** Once there is a header, the pieces become its items. */
  lemma {:induction false} PiecesPushed(hs: seq<Header>, ps: seq<string>, longest: nat)
    requires hs != [] && forall i :: 0 <= i < |ps| ==> |ps[i]| <= longest
    ensures PushedAll(hs, ps, longest) ==
            if ps == [] then hs else hs[0 := Header(Render(ItemsOf(hs[0]) + ps), ItemsOf(hs[0]) + ps)]
    decreases |ps|
  {
    if ps != [] {
      var next, rest := hs[0 := Extended(hs[0], ps[0])], ps[1..];
      PiecesPushed(next, rest, longest);
      assert PushedAll(hs, ps, longest) == PushedAll(next, rest, longest);
      assert ItemsOf(next[0]) + rest == ItemsOf(hs[0]) + ps by {
        ConcatAssociates(ItemsOf(hs[0]), [ps[0]], rest);
        assert ps == [ps[0]] + rest;
      }
      assert rest == [] ==> ItemsOf(next[0]) == ItemsOf(hs[0]) + ps;
      var last := Header(Render(ItemsOf(hs[0]) + ps), ItemsOf(hs[0]) + ps);
      assert next[0 := last] == hs[0 := last];
    }
  }

  lemma {:induction false} JoinLength(p: string, q: string, ps: seq<string>)
    ensures |Join([p] + ps)| - |p| == |Join([q] + ps)| - |q|
    ensures ps != [] ==> |Join([p] + ps)| == |p| + 2 + |Join(ps)|
  {
    if ps != [] {
      JoinMore(p, ps);
      JoinMore(q, ps);
    }
  }

  /** On no headers, pieces leave at most one header, never a longer value, and the whole value in one case. */
  lemma {:induction false} ArrayValue(ps: seq<string>, longest: nat)
    requires |ps| > 0 && forall i :: 0 <= i < |ps| ==> |ps[i]| <= longest && Delimiter(ps[i]) == |ps[i]|
    ensures var r := PushedAll([], ps, longest);
            r == [] || (|r| == 1 && r[0].value != "" && |r[0].value| <= 7 + |Join(ps)|)
    ensures var r := PushedAll([], ps, longest);
            r != [] && |r[0].value| == 7 + |Join(ps)| <==> |ps| > 1 && ps[0] != "" && !IsArray(ps[0])
    ensures |ps| > 1 && ps[0] != "" && !IsArray(ps[0]) ==>
              PushedAll([], ps, longest)[0].value == ARRAY + Join(ps)
    decreases |ps|
  {
    var rest, first := ps[1..], Pushed([], ps[0]);
    assert ps == [ps[0]] + rest;
    FirstPiece(ps[0]);
    if first == [] {
      if rest != [] {
        ArrayValue(rest, longest);
        JoinLength(ps[0], ps[0], rest);
      }
    } else {
      PiecesPushed(first, rest, longest);
      if rest != [] {
        var v := first[0].value;
        assert [v] + rest == first[0].items + rest;
        JoinLength(ps[0], v, rest);
      }
    }
  }

  ghost predicate NonEmpty(hs: seq<Header>) {
    forall i :: 0 <= i < |hs| ==> hs[i].value != ""
  }

  lemma {:induction false} NonEmptyPushed(hs: seq<Header>, data: string)
    requires NonEmpty(hs)
    ensures NonEmpty(Pushed(hs, data)) && |Pushed(hs, data)| <= (if hs == [] then 1 else |hs|)
    decreases |data|, 0, 0
  {
    if hs == [] && IsArray(data) && |data| >= 8 {
      NonEmptyPushedAll([], Pieces(data[7..]), |data| - 7);
    }
  }

  lemma {:induction false} NonEmptyPushedAll(hs: seq<Header>, ps: seq<string>, longest: nat)
    requires NonEmpty(hs) && forall i :: 0 <= i < |ps| ==> |ps[i]| <= longest
    ensures NonEmpty(PushedAll(hs, ps, longest))
    ensures |PushedAll(hs, ps, longest)| <= (if hs == [] then 1 else |hs|)
    decreases longest, 1, |ps|
  {
    if ps != [] {
      NonEmptyPushed(hs, ps[0]);
      NonEmptyPushedAll(Pushed(hs, ps[0]), ps[1..], longest);
    }
  }

  /** No header is ever empty, and there are at most as many as values were added. */
  lemma {:induction false} RecordedSome(keys: seq<string>)
    ensures NonEmpty(Recorded(keys)) && |Recorded(keys)| <= |keys|
  {
    if keys != [] {
      var front, last := keys[..|keys| - 1], keys[|keys| - 1];
      RecordedSome(front);
      if IsArray(last) && |last| >= 8 {
        NonEmptyPushedAll(Recorded(front), Pieces(last[7..]), |last| - 7);
      }
    }
  }

  /** What was added since the last empty value. */
  function AfterEmpty(keys: seq<string>): seq<string> {
    if keys == [] || keys[|keys| - 1] == "" then [] else AfterEmpty(keys[..|keys| - 1]) + [keys[|keys| - 1]]
  }

  lemma {:induction false} AfterEmptyIs(keys: seq<string>)
    ensures |AfterEmpty(keys)| <= |keys| && AfterEmpty(keys) == keys[|keys| - |AfterEmpty(keys)|..]
    ensures "" !in AfterEmpty(keys)
    ensures AfterEmpty(keys) == keys || keys[|keys| - |AfterEmpty(keys)| - 1] == ""
  {
    if keys != [] && keys[|keys| - 1] != "" {
      var front, last := keys[..|keys| - 1], keys[|keys| - 1];
      AfterEmptyIs(front);
      var k := |front| - |AfterEmpty(front)|;
      assert keys == front + [last];
      assert keys[k..] == front[k..] + [last];
      assert k > 0 ==> keys[k - 1] == front[k - 1];
    }
  }

  /** Without arrays the headers hold what was added since the last empty value. */
  lemma {:induction false} RecordedPlain(keys: seq<string>)
    requires forall i :: 0 <= i < |keys| ==> !IsArray(keys[i])
    ensures Values(Recorded(keys)) == AfterEmpty(keys)
  {
    if keys != [] {
      RecordedPlain(keys[..|keys| - 1]);
    }
  }

  /** An array whose pieces put it together again when they are pushed one by one. */
  predicate Rejoins(k: string) {
    IsArray(k) && var ps := Pieces(k[7..]); |ps| > 1 && ps[0] != "" && !IsArray(ps[0])
  }

  /** No empty value, and no array but a first one that rejoins. */
  predicate Recordable(keys: seq<string>) {
    forall i :: 0 <= i < |keys| ==> keys[i] != "" && (IsArray(keys[i]) ==> i == 0 && Rejoins(keys[i]))
  }

  lemma AllPlain(s: string)
    ensures forall i :: 0 <= i < |Pieces(s)| ==> Delimiter(Pieces(s)[i]) == |Pieces(s)[i]|
  {
    forall i | 0 <= i < |Pieces(s)| ensures Delimiter(Pieces(s)[i]) == |Pieces(s)[i]| {
      PiecesPlain(s, i);
    }
  }

  lemma ArrayAlone(k: string)
    requires IsArray(k)
    ensures var r := WithArray([], k);
            |r| <= 1 && (r != [] ==> (|r[0].value| == |k| <==> Rejoins(k)))
    ensures Rejoins(k) ==> Values(WithArray([], k)) == [k]
  {
    if |k| >= 8 {
      var ps := Pieces(k[7..]);
      JoinPieces(k[7..]);
      AllPlain(k[7..]);
      ArrayValue(ps, |k| - 7);
      assert k == ARRAY + k[7..];
    }
  }

  /** As many headers as values: then only the first of them can be an array, and the others are plain. */
  lemma {:induction false} RecordedAll(keys: seq<string>)
    requires |Recorded(keys)| == |keys|
    ensures forall i :: 0 <= i < |keys| ==> keys[i] != "" && (IsArray(keys[i]) ==> i == 0)
    ensures forall i :: 0 <= i < |keys| && !IsArray(keys[i]) ==> Values(Recorded(keys))[i] == keys[i]
    ensures keys != [] && IsArray(keys[0]) ==>
              WithArray([], keys[0]) != [] && Recorded(keys)[0].value == WithArray([], keys[0])[0].value
  {
    if keys != [] {
      var front, last := keys[..|keys| - 1], keys[|keys| - 1];
      RecordedSome(front);
      if IsArray(last) {
        if |last| >= 8 {
          NonEmptyPushedAll(Recorded(front), Pieces(last[7..]), |last| - 7);
        }
        assert front == [];
      } else {
        RecordedAll(front);
      }
    }
  }

  lemma {:induction false} RecordableRecorded(keys: seq<string>)
    requires Recordable(keys)
    ensures Values(Recorded(keys)) == keys
  {
    if keys != [] {
      var front, last := keys[..|keys| - 1], keys[|keys| - 1];
      RecordableRecorded(front);
      if IsArray(last) {
        assert front == [] && keys == [last];
        ArrayAlone(last);
      }
    }
  }

  /** The headers hold exactly the added values, in order, under exactly this condition. */
  lemma RecordedExactly(keys: seq<string>)
    ensures Values(Recorded(keys)) == keys <==> Recordable(keys)
  {
    if Recordable(keys) {
      RecordableRecorded(keys);
    } else if Values(Recorded(keys)) == keys {
      RecordedAll(keys);
      if keys != [] && IsArray(keys[0]) {
        ArrayAlone(keys[0]);
      }
    }
  }
}
