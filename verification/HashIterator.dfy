/** The iterator over a hash table: bucket by bucket, along each chain. */
module HashIterator {
  import opened HashTable
  import opened Sequences

  lemma FlattenStep<T>(c: seq<seq<T>>, p: nat)
    requires p < |c|
    ensures Flatten(c[..p + 1]) == Flatten(c[..p]) + c[p]
  {
    assert c[..p + 1][..p] == c[..p];
  }

  /** Position q of part p, counted over the concatenation of all parts. */
  lemma {:induction false} FlattenAt<T>(c: seq<seq<T>>, p: nat, q: nat)
    requires p < |c| && q < |c[p]|
    ensures |Flatten(c[..p])| + q < |Flatten(c)|
    ensures Flatten(c)[|Flatten(c[..p])| + q] == c[p][q]
    decreases |c|
  {
    var front := c[..|c| - 1];
    if p < |front| {
      assert front[..p] == c[..p];
      FlattenAt(front, p, q);
    }
  }

  lemma {:induction false} FlattenFrom<T>(c: seq<seq<T>>, n: nat) returns (p: nat, q: nat)
    requires n < |Flatten(c)|
    ensures p < |c| && q < |c[p]| && n == |Flatten(c[..p])| + q && Flatten(c)[n] == c[p][q]
    decreases |c|
  {
    var front := c[..|c| - 1];
    if n < |Flatten(front)| {
      p, q := FlattenFrom(front, n);
      assert front[..p] == c[..p];
    } else {
      p, q := |c| - 1, n - |Flatten(front)|;
    }
  }

  lemma {:induction false} NoRepeatsSize<T>(s: seq<T>, x: set<T>)
    requires NoRepeats(s) && forall e :: e in x <==> e in s
    ensures |x| == |s|
    decreases |s|
  {
    if s == [] {
      assert x == {};
    } else {
      var last := s[|s| - 1];
      var front := s[..|s| - 1];
      assert forall e :: e in s <==> e in front || e == last;
      NoRepeatsSize(front, x - {last});
    }
  }

  /** The chains, one after the other, list every entry exactly once. */
  lemma EveryEntryOnce<K(!new), V>(h: HashTable<K, V>)
    requires h.Valid()
    ensures NoRepeats(Flatten(h.chains))
    ensures forall e :: e in h.entries <==> e in Flatten(h.chains)
    ensures |Flatten(h.chains)| == h.entrycount == |h.contents|
  {
    var c: seq<seq<Entry<K, V>>> := h.chains;
    forall m, n | 0 <= m < n < |Flatten(c)| ensures Flatten(c)[m] != Flatten(c)[n] {
      var p, q := FlattenFrom(c, m);
      var p', q' := FlattenFrom(c, n);
      assert IndexFor(|c|, c[p][q].h) == p && IndexFor(|c|, c[p'][q'].h) == p';
      assert p == p' ==> q != q';
    }
    forall e | e in h.entries ensures e in Flatten(c) {
      var p := IndexFor(|c|, e.h);
      assert InTable(c, e);
      var q :| 0 <= q < |c[p]| && c[p][q] == e;
      FlattenAt(c, p, q);
    }
    forall e | e in Flatten(c) ensures e in h.entries {
      var n :| 0 <= n < |Flatten(c)| && Flatten(c)[n] == e;
      var p, q := FlattenFrom(c, n);
      assert c[p][q] in h.entries;
    }
    NoRepeatsSize(Flatten(c), h.entries);
  }

  /** e is entry idx of bucket pos, the last of `seen` entries handed out; or nothing was handed out yet. */
  ghost predicate Position<K, V>(chains: seq<seq<Entry<K, V>>>, pos: nat, e: Entry?<K, V>, idx: nat, seen: nat) {
    if e == null then pos == 0 && seen == 0
    else
      && pos < |chains| && idx < |chains[pos]| && e == chains[pos][idx]
      && seen == |Flatten(chains[..pos])| + idx + 1
  }

  /** The first bucket from `start` on that is not empty, or the table's length. */
  method SkipEmpty<K(!new), V>(h: HashTable<K, V>, start: nat) returns (p: nat)
    requires Linked(h.table[..], h.chains, h.entries) && start <= h.table.Length
    ensures start <= p <= h.table.Length == |h.chains|
    ensures |Flatten(h.chains[..p])| == |Flatten(h.chains[..start])|
    ensures p < h.table.Length ==> h.chains[p] != [] && h.table[p] == h.chains[p][0]
  {
    p := start;
    while p < h.table.Length && h.table[p] == null
      invariant start <= p <= |h.chains| && |Flatten(h.chains[..p])| == |Flatten(h.chains[..start])|
    {
      FlattenStep(h.chains, p);
      assert h.table[..][p] == At(h.chains[p], 0);
      p := p + 1;
    }
    assert p < h.table.Length ==> h.table[..][p] == At(h.chains[p], 0);
  }

  /**
   One step of the iterator, whose fields are pos and e: along the chain, else to the head of the next bucket in use.
   seen counts the entries handed out so far.
   */
  method Next<K(!new), V>(h: HashTable<K, V>, pos: nat, e: Entry?<K, V>, ghost idx: nat, ghost seen: nat)
    returns (more: bool, pos': nat, e': Entry?<K, V>, ghost idx': nat)
    requires Linked(h.table[..], h.chains, h.entries) && Position(h.chains, pos, e, idx, seen)
    ensures more <==> seen < |Flatten(h.chains)|
    ensures more ==> Position(h.chains, pos', e', idx', seen + 1) && e' == Flatten(h.chains)[seen]
  {
    pos' := pos;
    if e != null {
      assert e.next == At(h.chains[pos], idx + 1) by {
        assert h.chains[pos][idx].next == e.next;
      }
      e' := e.next;
      if e' != null {
        FlattenAt(h.chains, pos, idx + 1);
        more, idx' := true, idx + 1;
        return;
      }
      FlattenStep(h.chains, pos);
      pos' := pos' + 1;
    }
    assert seen == |Flatten(h.chains[..pos'])|;
    pos' := SkipEmpty(h, pos');
    if pos' >= h.table.Length {
      assert h.chains[..pos'] == h.chains;
      return false, pos', null, 0;
    }
    FlattenAt(h.chains, pos', 0);
    more, e', idx' := true, h.table[pos'], 0;
  }
}
