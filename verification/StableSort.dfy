/** What it means to sort a list of matches stably, and that it pins the result down. */
module StableSort {
  import opened Ordering

  class Node {
    const val: string
    var next: Node?

    constructor (val: string)
      ensures this.val == val && next == null
    {
      this.val, next := val, null;
    }
  }

  ghost predicate Sorted(s: seq<Node>) {
    forall p, q :: 0 <= p < q < |s| ==> AtMost(s[p].val, s[q].val)
  }

  /** In lexicographic order by character codes. */
  lemma NoneBefore(s: seq<Node>)
    requires Sorted(s)
    ensures forall p, q :: 0 <= p < q < |s| ==> !Before(s[q].val, s[p].val)
  {
    forall p, q | 0 <= p < q < |s| ensures !Before(s[q].val, s[p].val) {
      AtMostIsLexicographic(s[p].val, s[q].val);
    }
  }

  /** The nodes that carry v, in list order. */
  ghost function Picks(s: seq<Node>, v: string): seq<Node> {
    if s == [] then []
    else Picks(s[..|s| - 1], v) + if s[|s| - 1].val == v then [s[|s| - 1]] else []
  }

  /** For every value, t carries the same nodes as s in the same order. */
  ghost predicate Stable(s: seq<Node>, t: seq<Node>) {
    forall v :: Picks(t, v) == Picks(s, v)
  }

  lemma {:induction false} PicksConcat(s: seq<Node>, t: seq<Node>, v: string)
    ensures Picks(s + t, v) == Picks(s, v) + Picks(t, v)
  {
    if t == [] {
      assert s + t == s;
    } else {
      assert (s + t)[..|s + t| - 1] == s + t[..|t| - 1];
      PicksConcat(s, t[..|t| - 1], v);
    }
  }

  ghost function Exchange(s: seq<Node>, j: nat): seq<Node>
    requires 0 < j < |s|
  {
    s[j - 1 := s[j]][j := s[j - 1]]
  }

  lemma PicksBetween(a: seq<Node>, x: Node, y: Node, b: seq<Node>, v: string)
    ensures Picks(a + [x] + [y] + b, v) == Picks(a, v) + (Picks([x], v) + Picks([y], v)) + Picks(b, v)
  {
    PicksConcat(a + [x] + [y], b, v);
    PicksConcat(a + [x], [y], v);
    PicksConcat(a, [x], v);
  }

  lemma PicksPair(x: Node, y: Node, v: string)
    requires x.val != y.val
    ensures Picks([x], v) + Picks([y], v) == Picks([y], v) + Picks([x], v)
  {
    assert [x][..0] == [] && [y][..0] == [];
  }

  /** Exchanging two neighbours with different values is stable. */
  lemma ExchangeStable(s: seq<Node>, j: nat)
    requires 0 < j < |s| && s[j - 1].val != s[j].val
    ensures Stable(s, Exchange(s, j))
  {
    var t := Exchange(s, j);
    forall v ensures Picks(t, v) == Picks(s, v) {
      var a, x, y, b := s[..j - 1], s[j - 1], s[j], s[j + 1..];
      assert s == a + [x] + [y] + b && t == a + [y] + [x] + b;
      PicksBetween(a, x, y, b, v);
      PicksBetween(a, y, x, b, v);
      PicksPair(x, y, v);
    }
  }

  lemma {:induction false} PicksCount(s: seq<Node>, x: Node)
    ensures multiset(Picks(s, x.val))[x] == multiset(s)[x]
  {
    if s != [] {
      assert s == s[..|s| - 1] + [s[|s| - 1]];
      PicksCount(s[..|s| - 1], x);
    }
  }

  /** A stable rearrangement holds the same nodes. */
  lemma StableIsPermutation(s: seq<Node>, t: seq<Node>)
    requires Stable(s, t)
    ensures multiset(t) == multiset(s)
  {
    forall x: Node ensures multiset(t)[x] == multiset(s)[x] {
      PicksCount(s, x);
      PicksCount(t, x);
      assert Picks(t, x.val) == Picks(s, x.val);
    }
  }

  lemma {:induction false} PickedFrom(s: seq<Node>, v: string, x: Node)
    requires x in Picks(s, v)
    ensures x in s && x.val == v
  {
    if s != [] && x in Picks(s[..|s| - 1], v) {
      PickedFrom(s[..|s| - 1], v, x);
    }
  }

  lemma LastIsLargest(s: seq<Node>, t: seq<Node>)
    requires Sorted(t) && Stable(s, t) && s != []
    ensures t != [] && AtMost(s[|s| - 1].val, t[|t| - 1].val)
  {
    var x := s[|s| - 1];
    assert x in Picks(s, x.val);
    assert Picks(t, x.val) == Picks(s, x.val);
    PickedFrom(t, x.val, x);
    var p :| 0 <= p < |t| && t[p] == x;
    Swapped(x.val, x.val);
  }

  /** There is only one way to sort a list stably. */
  lemma {:induction false} SortIsUnique(s: seq<Node>, t: seq<Node>)
    requires Sorted(s) && Sorted(t) && Stable(s, t)
    ensures s == t
    decreases |s|
  {
    if s == [] {
      if t != [] {
        LastIsLargest(t, s);
      }
    } else {
      LastIsLargest(s, t);
      LastIsLargest(t, s);
      var x, y := s[|s| - 1], t[|t| - 1];
      Swapped(x.val, y.val);
      assert Picks(t, x.val) == Picks(s, x.val);
      assert Picks(s, x.val)[|Picks(s, x.val)| - 1] == x;
      assert x == y;
      var s', t' := s[..|s| - 1], t[..|t| - 1];
      forall v ensures Picks(t', v) == Picks(s', v) {
        assert Picks(t, v) == Picks(s, v);
        var tail := if x.val == v then [x] else [];
        assert Picks(s', v) == Picks(s, v)[..|Picks(s, v)| - |tail|];
        assert Picks(t', v) == Picks(t, v)[..|Picks(t, v)| - |tail|];
      }
      SortIsUnique(s', t');
      assert s == s' + [x] && t == t' + [x];
    }
  }
}
