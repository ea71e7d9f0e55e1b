/** The console's list of completion matches and its in-place bubble sort. */
module ConsoleMatches {
  import opened Ordering
  import opened Sequences
  import opened StableSort

  /** Every node but the last links to the one after it; the last link is not constrained. */
  ghost predicate Links(s: seq<Node>)
    reads s
  {
    forall k {:trigger s[k].next} :: 0 <= k < |s| - 1 ==> s[k].next == s[k + 1]
  }

  /** Position k of the list, null outside it. */
  ghost function At(s: seq<Node>, k: int): Node? {
    if 0 <= k < |s| then s[k] else null
  }

  /** From position m on the list is sorted and nothing before m is larger than anything there. */
  ghost predicate TailDone(s: seq<Node>, m: nat) {
    forall p, q :: 0 <= p < q < |s| && m <= q ==> AtMost(s[p].val, s[q].val)
  }

  /** Position j carries a largest value among positions 0..j. */
  ghost predicate LargestAt(s: seq<Node>, j: nat) {
    j < |s| && forall p :: 0 <= p < j ==> AtMost(s[p].val, s[j].val)
  }

  class Matches {
    var head: Node?
    var end: Node?
    var count: nat
    ghost var nodes: seq<Node>
    ghost var members: set<Node>

    ghost predicate Valid()
      reads this, members
    {
      && Within(nodes, members)
      && count == |nodes| && NoRepeats(nodes) && Links(nodes)
      && head == At(nodes, 0) && end == At(nodes, |nodes| - 1)
      && (end != null ==> end.next == null)
    }

    constructor ()
      ensures Valid() && nodes == [] && members == {}
    {
      head, end, count := null, null, 0;
      nodes, members := [], {};
    }

    method Push(val: string)
      requires Valid()
      modifies this, end
      ensures Valid() && |nodes| == |old(nodes)| + 1 && old(nodes) == nodes[..|old(nodes)|]
      ensures nodes[|nodes| - 1].val == val && fresh(nodes[|nodes| - 1])
      ensures members == old(members) + {nodes[|nodes| - 1]}
    {
      var match_ := new Node(val);
      if head != null {
        end.next := match_;
      } else {
        head := match_;
      }
      count := count + 1;
      end := match_;
      nodes, members := nodes + [match_], members + {match_};
    }

    /** Ignores a value that the list already holds in some letter case. */
    method PushUnique(val: string)
      requires Valid()
      modifies this, end
      ensures Valid() && fresh(members - old(members))
      ensures if exists k :: 0 <= k < |old(nodes)| && SameIgnoringCase(old(nodes)[k].val, val)
              then nodes == old(nodes)
              else |nodes| == |old(nodes)| + 1 && old(nodes) == nodes[..|old(nodes)|] && nodes[|nodes| - 1].val == val
    {
      var node := head;
      ghost var k := 0;
      while node != null
        invariant k <= |nodes| && node == At(nodes, k)
        invariant forall i :: 0 <= i < k ==> !SameIgnoringCase(nodes[i].val, val)
        decreases |nodes| - k
      {
        if SameIgnoringCase(node.val, val) {
          return;
        }
        assert k + 1 < |nodes| ==> nodes[k].next == nodes[k + 1];
        node, k := node.next, k + 1;
      }
      Push(val);
    }

    /** The four cursors of the inner loop when it is about to compare positions j - 1 and j. */
    ghost predicate Cursors(j: nat, s0: Node?, s1: Node?, s2: Node?, s3: Node?)
      reads this
    {
      && 0 < j < |nodes|
      && s0 == At(nodes, j - 2) && s1 == nodes[j - 1] && s2 == nodes[j]
      && s3 == if j + 1 < |nodes| then nodes[j + 1] else if |nodes| == 2 then null else nodes[j]
    }

    /** The exchange of positions j - 1 and j, by relinking. */
    method Relink(ghost j: nat, s0: Node?, s1: Node, s2: Node, s3: Node?)
      requires NoRepeats(nodes) && Links(nodes) && head == At(nodes, 0)
      requires Cursors(j, s0, s1, s2, s3)
      modifies this`head, this`nodes, s0, s1, s2
      ensures nodes == Exchange(old(nodes), j)
      ensures NoRepeats(nodes) && Links(nodes) && head == At(nodes, 0)
      ensures s1.next == s3
    {
      s1.next := s3;
      s2.next := s1;
      if s0 != null {
        s0.next := s2;
      }
      if s1 == head {
        head := s2;
      }
      ghost var t := Exchange(nodes, j);
      forall k | 0 <= k < |t| - 1 ensures t[k].next == t[k + 1] {
        if k != j - 2 && k != j - 1 && k != j {
          assert t[k] == nodes[k];
        }
      }
      nodes := t;
    }

    /** One exchange at most, and the position just compared carries the largest value so far. */
    lemma ComparedLargest(before: seq<Node>, j: nat, m: nat)
      requires 0 < j < m <= |before| && LargestAt(before, j - 1) && TailDone(before, m)
      ensures var t := if Strcmp(before[j - 1].val, before[j].val) > 0 then Exchange(before, j) else before;
              LargestAt(t, j) && TailDone(t, m) && Stable(before, t)
    {
      var a, b := before[j - 1], before[j];
      Swapped(a.val, b.val);
      Swapped(a.val, a.val);
      if Strcmp(a.val, b.val) > 0 {
        ExchangeStable(before, j);
        var t := Exchange(before, j);
        assert t[j] == a && t[j - 1] == b;
      } else {
        forall p | 0 <= p < j ensures AtMost(before[p].val, b.val) {
          if p < j - 1 {
            Transitive(before[p].val, a.val, b.val);
          }
        }
      }
    }

    /** The body of the inner loop. */
    method Compare(ghost j: nat, ghost m: nat, s0: Node?, s1: Node, s2: Node, s3: Node?)
      returns (r0: Node?, r1: Node, r2: Node?, r3: Node?)
      requires Within(nodes, members) && NoRepeats(nodes) && Links(nodes) && head == At(nodes, 0)
      requires Cursors(j, s0, s1, s2, s3) && j < m <= |nodes|
      requires m == |nodes| ==> nodes[m - 1].next == null
      requires LargestAt(nodes, j - 1) && TailDone(nodes, m)
      modifies this`head, this`nodes, members
      ensures NoRepeats(nodes) && Links(nodes) && head == At(nodes, 0)
      ensures |nodes| == old(|nodes|) && Stable(old(nodes), nodes) && Within(nodes, members)
      ensures LargestAt(nodes, j) && TailDone(nodes, m)
      ensures j + 1 < m ==> Cursors(j + 1, r0, r1, r2, r3)
      ensures j + 1 < m == |nodes| ==> nodes[m - 1].next == null
      // the last comparison of the first pass ties the tail into a cycle exactly when it exchanges
      ensures j + 1 == m == |nodes| ==>
                nodes[m - 1].next == if m > 2 && Strcmp(s1.val, s2.val) > 0 then nodes[m - 2] else null
    {
      ComparedLargest(nodes, j, m);
      r3 := s3;
      if Strcmp(s1.val, s2.val) > 0 {
        Relink(j, s0, s1, s2, s3);
        r0, r1, r2 := s2, s1, s1.next;
      } else {
        r0, r1, r2 := s1, s2, s3;
      }
      assert j + 1 < m ==> s3 == nodes[j + 1];
      assert j + 2 < |nodes| ==> nodes[j + 1].next == nodes[j + 2];
      if s3 != null && s3.next != null {
        r3 := s3.next;
      }
    }

    /** One round of the outer loop. Before the first the last link is null; it may be stale in later ones. */
    method Pass(i: nat)
      requires 1 <= i < count == |nodes|
      requires Within(nodes, members) && NoRepeats(nodes) && Links(nodes) && head == At(nodes, 0)
      requires i == 1 ==> nodes[count - 1].next == null
      requires TailDone(nodes, count - i + 1)
      modifies this`head, this`nodes, members
      ensures NoRepeats(nodes) && Links(nodes) && head == At(nodes, 0)
      ensures |nodes| == old(|nodes|) && Stable(old(nodes), nodes) && Within(nodes, members)
      ensures TailDone(nodes, count - i)
    {
      ghost var m := count - i + 1;
      assert nodes[0].next == nodes[1] && (2 < |nodes| ==> nodes[1].next == nodes[2]);
      var s0: Node? := null;
      var s1: Node? := head;
      var s2: Node? := if s1 != null then s1.next else null;
      var s3: Node? := if s2 != null then s2.next else null;
      for j := 1 to count - i + 1
        invariant |nodes| == count && NoRepeats(nodes) && Links(nodes) && head == At(nodes, 0)
        invariant Stable(old(nodes), nodes) && Within(nodes, members)
        invariant LargestAt(nodes, j - 1) && TailDone(nodes, m)
        invariant j < m ==> Cursors(j, s0, s1, s2, s3)
        invariant j < m == count ==> nodes[count - 1].next == null
      {
        assert s1 != null && s2 != null;
        s0, s1, s2, s3 := Compare(j, m, s0, s1, s2, s3);
      }
    }

    /** Sorts the matches in place: afterwards the list is well formed, stable and in strcmp order. */
    method Sort()
      requires Valid()
      modifies this`head, this`end, this`nodes, members
      ensures Valid() && Sorted(nodes) && Stable(old(nodes), nodes)
      ensures multiset(nodes) == multiset(old(nodes))
      ensures forall p, q :: 0 <= p < q < |nodes| ==> !Before(nodes[q].val, nodes[p].val)
    {
      if count < 2 {
        NoneBefore(nodes);
        return;
      }
      for i := 1 to count
        invariant |nodes| == count && NoRepeats(nodes) && Links(nodes) && head == At(nodes, 0)
        invariant i == 1 ==> nodes[count - 1].next == null
        invariant Stable(old(nodes), nodes) && Within(nodes, members)
        invariant TailDone(nodes, count - i + 1)
      {
        Pass(i);
      }
      var p := head;
      for i := 1 to count
        invariant p == nodes[i - 1]
      {
        assert nodes[i - 1].next == nodes[i];
        p := p.next;
      }
      if p != null {
        p.next := null;
        end := p;
      }
      StableIsPermutation(old(nodes), nodes);
      NoneBefore(nodes);
    }
  }

  /** Any matches pushed one after the other and then sorted. */
  method Collected(vals: seq<string>) returns (m: Matches, ghost pushed: seq<Node>)
    ensures fresh(m) && m.Valid() && Values(pushed) == vals
    ensures Sorted(m.nodes) && Stable(pushed, m.nodes) && multiset(m.nodes) == multiset(pushed)
    ensures forall p, q :: 0 <= p < q < |m.nodes| ==> !Before(m.nodes[q].val, m.nodes[p].val)
  {
    m := Pushed(vals);
    pushed := m.nodes;
    m.Sort();
  }

  ghost function Values(s: seq<Node>): (vs: seq<string>)
    ensures |vs| == |s| && forall k :: 0 <= k < |s| ==> vs[k] == s[k].val
  {
    seq(|s|, k requires 0 <= k < |s| => s[k].val)
  }

  method Pushed(vals: seq<string>) returns (m: Matches)
    ensures fresh(m) && fresh(m.members) && m.Valid() && Values(m.nodes) == vals
    decreases |vals|
  {
    if |vals| == 0 {
      m := new Matches();
    } else {
      m := Pushed(vals[..|vals| - 1]);
      m.Push(vals[|vals| - 1]);
    }
  }
}
