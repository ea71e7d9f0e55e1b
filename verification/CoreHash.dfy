/** The operations of the core's string-keyed hashes that are more than one call into the table. */
module CoreHash {
  import opened Wrappers
  import opened EqMap
  import opened EventHeaders
  import opened HashTable
  import opened HashIterator
  import opened Sequences

  type Callback<!V> = Option<(string, Option<V>) -> bool>

  /** Whether the callback selects a binding for deletion; no callback selects them all. */
  predicate Selects<V>(callback: Callback<V>, k: string, item: Item<V>) {
    callback.None? || callback.value(k, item.value)
  }

  ghost function Selected<V>(callback: Callback<V>, entries: seq<Entry<string, V>>): seq<Entry<string, V>> {
    if entries == [] then []
    else
      var last := entries[|entries| - 1];
      var front := Selected(callback, entries[..|entries| - 1]);
      if Selects(callback, last.k, last.item) then front + [last] else front
  }

  lemma {:induction false} SelectedAre<V>(callback: Callback<V>, s: seq<Entry<string, V>>)
    requires NoRepeats(s)
    ensures NoRepeats(Selected(callback, s))
    ensures forall e :: e in Selected(callback, s) ==> e in s && Selects(callback, e.k, e.item)
    ensures forall e :: e in s && Selects(callback, e.k, e.item) ==> e in Selected(callback, s)
  {
    if s != [] {
      var front, last := s[..|s| - 1], s[|s| - 1];
      SelectedAre(callback, front);
      assert forall e :: e in s <==> e in front || e == last;
      assert last !in front;
    }
  }

  lemma SelectedStep<V>(callback: Callback<V>, s: seq<Entry<string, V>>, n: nat)
    requires n < |s|
    ensures Selected(callback, s[..n + 1]) ==
            Selected(callback, s[..n]) + if Selects(callback, s[n].k, s[n].item) then [s[n]] else []
  {
    assert s[..n + 1][..n] == s[..n];
  }

  ghost function KeysOf<V>(s: seq<Entry<string, V>>): (keys: seq<string>)
    ensures |keys| == |s| && forall i :: 0 <= i < |s| ==> keys[i] == s[i].k
  {
    seq(|s|, i requires 0 <= i < |s| => s[i].k)
  }

  /** The keys of the selected bindings, in iteration order. */
  ghost function SelectedKeys<V>(callback: Callback<V>, s: seq<Entry<string, V>>): seq<string> {
    KeysOf(Selected(callback, s))
  }

  /** The headers after the first n entries of s were visited. */
  ghost function Visited<V>(callback: Callback<V>, s: seq<Entry<string, V>>, n: nat): seq<Header>
    requires n <= |s|
  {
    if n == 0 then []
    else
      var before := Visited(callback, s, n - 1);
      if Selects(callback, s[n - 1].k, s[n - 1].item) then Added(before, s[n - 1].k) else before
  }

  lemma {:induction false} VisitedAll<V>(callback: Callback<V>, s: seq<Entry<string, V>>, n: nat)
    requires n <= |s|
    ensures Visited(callback, s, n) == Recorded(SelectedKeys(callback, s[..n]))
  {
    if n > 0 {
      VisitedAll(callback, s, n - 1);
      SelectedStep(callback, s, n - 1);
      var before, keys := SelectedKeys(callback, s[..n - 1]), SelectedKeys(callback, s[..n]);
      if Selects(callback, s[n - 1].k, s[n - 1].item) {
        assert keys == before + [s[n - 1].k];
        assert keys[..|keys| - 1] == before;
      } else {
        assert Selected(callback, s[..n]) == Selected(callback, s[..n - 1]);
      }
    }
  }

  /** One round of the first loop: records the entry at hand if it is selected and goes to the next one. */
  method RecordOne<V>(h: HashTable<string, V>, callback: Callback<V>, event: Event,
                      pos: nat, e: Entry<string, V>, ghost idx: nat, ghost n: nat)
    returns (more: bool, pos': nat, e': Entry?<string, V>, ghost idx': nat)
    requires Linked(h.table[..], h.chains, h.entries) && Position(h.chains, pos, e, idx, n + 1)
    modifies event
    ensures event.headers ==
              if Selects(callback, e.k, e.item) then Added(old(event.headers), e.k) else old(event.headers)
    ensures more <==> n + 1 < |Flatten(h.chains)|
    ensures more ==> Position(h.chains, pos', e', idx', n + 2) && e' == Flatten(h.chains)[n + 1]
  {
    more, pos', e', idx' := Next(h, pos, e, idx, n + 1);
    if Selects(callback, e.k, e.item) {
      event.AddHeader(e.k);
    }
  }

  /** The first loop from entry n on, which the iterator is at. */
  method CollectFrom<V>(h: HashTable<string, V>, callback: Callback<V>, event: Event,
                        pos0: nat, e0: Entry<string, V>, ghost idx0: nat)
    requires Linked(h.table[..], h.chains, h.entries) && Position(h.chains, pos0, e0, idx0, 1)
    requires event.headers == [] && 0 < |Flatten(h.chains)| && e0 == Flatten(h.chains)[0]
    modifies event
    ensures event.headers == Visited(callback, Flatten(h.chains), |Flatten(h.chains)|)
  {
    ghost var flat, n, idx := Flatten(h.chains), 0, idx0;
    var more, pos, e: Entry?<string, V> := true, pos0, e0;
    while more
      invariant Linked(h.table[..], h.chains, h.entries)
      invariant n <= |flat| && (more <==> n < |flat|)
      invariant more ==> Position(h.chains, pos, e, idx, n + 1) && e == flat[n]
      invariant event.headers == Visited(callback, flat, n)
      decreases |flat| - n
    {
      more, pos, e, idx := RecordOne(h, callback, event, pos, e, idx, n);
      n := n + 1;
    }
  }

  /** Every selected key becomes a value of the event's headers. */
  method CollectKeys<V>(h: HashTable<string, V>, callback: Callback<V>, event: Event)
    requires Linked(h.table[..], h.chains, h.entries) && event.headers == []
    modifies event
    ensures event.headers == Recorded(SelectedKeys(callback, Flatten(h.chains)))
  {
    ghost var flat := Flatten(h.chains);
    VisitedAll(callback, flat, |flat|);
    assert flat[..|flat|] == flat;
    var more, pos, e, idx := Next(h, 0, null, 0, 0);
    if more {
      CollectFrom(h, callback, event, pos, e, idx);
    }
  }

  /** The bindings whose keys equal none of the given ones. */
  ghost function Missed<I>(m: map<string, I>, eq: (string, string) -> bool, vs: seq<string>): map<string, I> {
    map k | k in m && (forall i :: 0 <= i < |vs| ==> !eq(vs[i], k)) :: m[k]
  }

  lemma MissedNext<I>(m: map<string, I>, eq: (string, string) -> bool, vs: seq<string>, j: nat)
    requires j < |vs|
    ensures Missed(m, eq, vs[..j + 1]) == Without(Missed(m, eq, vs[..j]), eq, vs[j])
  {
    assert vs[..j + 1] == vs[..j] + [vs[j]];
  }

  lemma MissedStep<I>(m: map<string, I>, eq: (string, string) -> bool, vs: seq<string>, j: nat)
    requires Equivalence(eq) && Distinct(m, eq) && j < |vs|
    ensures Missed(m, eq, vs[..j + 1]) == Without(Missed(m, eq, vs[..j]), eq, vs[j])
    ensures forall k :: k in Missed(m, eq, vs[..j]) && eq(vs[j], k) ==> Lookup(Missed(m, eq, vs[..j]), eq, vs[j]) == Some(m[k])
    ensures Lookup(Missed(m, eq, vs[..j]), eq, vs[j]).Some? ==>
              exists k :: k in Missed(m, eq, vs[..j]) && eq(vs[j], k)
  {
    var before := Missed(m, eq, vs[..j]);
    MissedNext(m, eq, vs, j);
    forall k | k in before && eq(vs[j], k) ensures Lookup(before, eq, vs[j]) == Some(m[k]) {
      LookupIs(before, eq, vs[j], k);
    }
  }

  /** Whether some binding that is gone handed its value back. */
  ghost predicate HandedBack<V>(m: map<string, Item<V>>, kept: map<string, Item<V>>) {
    exists k :: k in m && k !in kept && m[k].value.Some? && !m[k].freeValue && !m[k].hasDestructor
  }

  lemma HandedBackStep<V>(m: map<string, Item<V>>, eq: (string, string) -> bool, vs: seq<string>, j: nat, v: Option<V>)
    requires Equivalence(eq) && Distinct(m, eq) && j < |vs|
    requires match Lookup(Missed(m, eq, vs[..j]), eq, vs[j])
             case None => v == None
             case Some(item) => v == if item.freeValue || item.hasDestructor then None else item.value
    ensures HandedBack(m, Missed(m, eq, vs[..j + 1])) <==> HandedBack(m, Missed(m, eq, vs[..j])) || v.Some?
  {
    MissedStep(m, eq, vs, j);
    var before, after := Missed(m, eq, vs[..j]), Missed(m, eq, vs[..j + 1]);
    if k :| k in m && k !in after && m[k].value.Some? && !m[k].freeValue && !m[k].hasDestructor {
      assert k in before ==> eq(vs[j], k);
    }
    if k :| k in m && k !in before && m[k].value.Some? && !m[k].freeValue && !m[k].hasDestructor {
      assert k !in after;
    }
    if v.Some? {
      var k :| k in before && eq(vs[j], k);
      assert k in m && k !in after && m[k].value.Some? && !m[k].freeValue && !m[k].hasDestructor;
    }
  }

  /** The second loop: deletes the values of the headers one by one. */
  method DeleteKeys<V>(h: HashTable<string, V>, event: Event) returns (success: bool)
    requires h.Valid()
    modifies h`entrycount, h`chains, h`entries, h`contents, h.table, h.entries
    ensures h.Valid() && h.contents == Missed(old(h.contents), h.eqfn, Values(event.headers))
    ensures success <==> HandedBack(old(h.contents), h.contents)
  {
    h.ContentsDistinct();
    ghost var m, vs := h.contents, Values(event.headers);
    success := false;
    for j := 0 to |event.headers|
      invariant h.Valid() && h.entries <= old(h.entries)
      invariant h.contents == Missed(m, h.eqfn, vs[..j])
      invariant success <==> HandedBack(m, Missed(m, h.eqfn, vs[..j]))
    {
      MissedStep(m, h.eqfn, vs, j);
      var v := h.Remove(event.headers[j].value);
      HandedBackStep(m, h.eqfn, vs, j, v);
      success := success || v.Some?;
    }
    assert vs[..|vs|] == vs;
  }

  /**
   Deletes the bindings whose keys are values of the headers left when all selected keys were added.
   Below: when these are the selected bindings, and what happens otherwise.
   */
  method DeleteMulti<V>(h: HashTable<string, V>, callback: Callback<V>) returns (success: bool, ghost keys: seq<string>)
    requires h.Valid()
    modifies h`entrycount, h`chains, h`entries, h`contents, h.table, h.entries
    ensures h.Valid()
    ensures SelectedBy(callback, old(h.contents), keys)
    ensures h.contents == Missed(old(h.contents), h.eqfn, Values(Recorded(keys)))
    ensures success <==> HandedBack(old(h.contents), h.contents)
  {
    keys := SelectedKeys(callback, Flatten(h.chains));
    SelectedExactly(h, callback);
    var event := new Event();
    CollectKeys(h, callback, event);
    success := DeleteKeys(h, event);
  }

  /** keys lists, each once, the keys of the selected bindings. */
  ghost predicate SelectedBy<V>(callback: Callback<V>, m: map<string, Item<V>>, keys: seq<string>) {
    && NoRepeats(keys)
    && forall k :: k in keys <==> k in m && (callback.None? || callback.value(k, m[k].value))
  }

  lemma SelectedExactly<V>(h: HashTable<string, V>, callback: Callback<V>)
    requires h.Valid()
    ensures SelectedBy(callback, h.contents, SelectedKeys(callback, Flatten(h.chains)))
  {
    var flat := Flatten(h.chains);
    var s, keys := Selected(callback, flat), SelectedKeys(callback, flat);
    EveryEntryOnce(h);
    SelectedAre(callback, flat);
    forall e | e in s ensures e in h.entries {
      assert e in flat;
    }
    forall i, j | 0 <= i < j < |keys| ensures keys[i] != keys[j] {
      assert s[i] in h.entries && s[j] in h.entries && s[i] != s[j];
      assert h.eqfn(s[i].k, s[i].k);
    }
    forall k | k in h.contents && Selects(callback, k, h.contents[k]) ensures k in keys {
      OwnerExists(h.entries, h.contents, h.eqfn, k);
      var e :| e in h.entries && e.k == k;
      assert e in s;
    }
    forall k | k in keys ensures k in h.contents && Selects(callback, k, h.contents[k]) {
      var i :| 0 <= i < |keys| && keys[i] == k;
      assert s[i] in h.entries;
    }
  }

  // ---- When exactly the selected bindings go ----

  /** Equal keys are equally long, with strcmp and with strcasecmp. */
  ghost predicate SameLength(eq: (string, string) -> bool) {
    forall a, b :: eq(a, b) ==> |a| == |b|
  }

  ghost predicate ExactlyGone<I>(m: map<string, I>, kept: map<string, I>, keys: seq<string>) {
    kept == map k | k in m && k !in keys :: m[k]
  }

  /** Each value deletes one binding at most. */
  lemma {:induction false} MissedCount<I>(m: map<string, I>, eq: (string, string) -> bool, vs: seq<string>)
    requires Equivalence(eq) && Distinct(m, eq)
    ensures |Missed(m, eq, vs)| >= |m| - |vs|
  {
    if vs == [] {
      assert Missed(m, eq, vs) == m;
    } else {
      var n := |vs| - 1;
      assert vs[..n + 1] == vs;
      MissedCount(m, eq, vs[..n]);
      MissedStep(m, eq, vs, n);
      WithoutCount(Missed(m, eq, vs[..n]), eq, vs[n]);
    }
  }

  lemma WithoutCount<I>(m: map<string, I>, eq: (string, string) -> bool, v: string)
    requires Equivalence(eq) && Distinct(m, eq)
    ensures |Without(m, eq, v)| >= |m| - 1
  {
    var w := Without(m, eq, v);
    if k :| k in m && eq(v, k) {
      forall x | x in m ensures x in w.Keys + {k} {
        if eq(v, x) {
          assert Via(x, v, k);
        }
      }
      assert m.Keys <= w.Keys + {k};
      Smaller(m.Keys, w.Keys + {k});
    } else {
      assert w == m;
    }
  }

  lemma Smaller(a: set<string>, b: set<string>)
    requires a <= b
    ensures |a| <= |b|
  {
    assert |b| == |a| + |b - a| by {
      assert b == a + (b - a);
    }
  }

  lemma {:induction false} GoneCount<I>(m: map<string, I>, keys: seq<string>)
    requires NoRepeats(keys) && forall k :: k in keys ==> k in m
    ensures |map k | k in m && k !in keys :: m[k]| == |m| - |keys|
  {
    var rest := map k | k in m && k !in keys :: m[k];
    if keys == [] {
      assert rest == m;
    } else {
      var front, last := keys[..|keys| - 1], keys[|keys| - 1];
      assert keys == front + [last];
      GoneCount(m, front);
      var before := map k | k in m && k !in front :: m[k];
      assert before.Keys == rest.Keys + {last};
    }
  }

  /**
   The selected bindings are the ones that go if and only if no selected key is empty, and none is an array
   but one that comes first and rejoins.
   */
  lemma DeletesExactly<I>(m: map<string, I>, eq: (string, string) -> bool, keys: seq<string>)
    requires Equivalence(eq) && Distinct(m, eq) && SameLength(eq)
    requires NoRepeats(keys) && forall k :: k in keys ==> k in m
    ensures ExactlyGone(m, Missed(m, eq, Values(Recorded(keys))), keys) <==> Recordable(keys)
  {
    var vs := Values(Recorded(keys));
    if Recordable(keys) {
      RecordableRecorded(keys);
      OwnKeysGone(m, eq, keys);
    }
    if ExactlyGone(m, Missed(m, eq, vs), keys) {
      MissedCount(m, eq, vs);
      GoneCount(m, keys);
      RecordedSome(keys);
      RecordedAll(keys);
      if keys != [] && IsArray(keys[0]) {
        ArrayAlone(keys[0]);
        assert keys[0] !in Missed(m, eq, vs);
        assert forall j :: 0 < j < |vs| ==> !eq(vs[j], keys[0]);
      }
    }
  }

  lemma OwnKeysGone<I>(m: map<string, I>, eq: (string, string) -> bool, keys: seq<string>)
    requires Equivalence(eq) && Distinct(m, eq) && forall k :: k in keys ==> k in m
    ensures ExactlyGone(m, Missed(m, eq, keys), keys)
  {
    forall k | k in m ensures k in keys <==> exists i :: 0 <= i < |keys| && eq(keys[i], k) {
      if i :| 0 <= i < |keys| && eq(keys[i], k) {
        assert keys[i] in m && keys[i] == k;
      }
      if k in keys {
        var i :| 0 <= i < |keys| && keys[i] == k;
        assert eq(keys[i], k);
      }
    }
  }

  /** Without arrays: the bindings that go are those listed after the empty key, all of them if there is none. */
  lemma PlainKeysGone<I>(m: map<string, I>, eq: (string, string) -> bool, keys: seq<string>)
    requires Equivalence(eq) && Distinct(m, eq) && SameLength(eq)
    requires NoRepeats(keys) && forall k :: k in keys ==> k in m && !IsArray(k)
    ensures ExactlyGone(m, Missed(m, eq, Values(Recorded(keys))), AfterEmpty(keys))
    ensures ExactlyGone(m, Missed(m, eq, Values(Recorded(keys))), keys) <==> "" !in keys
  {
    RecordedPlain(keys);
    AfterEmptyIs(keys);
    OwnKeysGone(m, eq, AfterEmpty(keys));
    DeletesExactly(m, eq, keys);
  }

  /** The empty key is never deleted, arrays or not. */
  lemma EmptyKeyStays<I>(m: map<string, I>, eq: (string, string) -> bool, keys: seq<string>)
    requires SameLength(eq) && "" in m
    ensures "" in Missed(m, eq, Values(Recorded(keys)))
  {
    RecordedSome(keys);
  }

  predicate EqualKeys(a: string, b: string) {
    a == b
  }

  function Length(s: string): nat {
    |s|
  }

  function Bound(v: int): Item<int> {
    Item(Some(v), false, false)
  }

  method TwoKeys(a: string, b: string) returns (h: HashTable<string, int>)
    requires a != b
    ensures fresh(h) && h.Valid() && fresh(h.table) && fresh(h.entries)
    ensures h.eqfn == EqualKeys && h.contents == map[a := Bound(1), b := Bound(2)]
  {
    h := OneKey(a);
    BoundTwice(a, b);
    InsertBound(h, b, 2);
  }

  method OneKey(a: string) returns (h: HashTable<string, int>)
    ensures fresh(h) && h.Valid() && fresh(h.table) && fresh(h.entries)
    ensures h.eqfn == EqualKeys && h.contents == Bind(map[], EqualKeys, a, Bound(1))
  {
    h := new HashTable(16, Length, EqualKeys);
    InsertBound(h, a, 1);
  }

  method InsertBound(h: HashTable<string, int>, k: string, v: int)
    requires h.Valid()
    modifies h, h.table, h.entries
    ensures h.Valid() && fresh(h.entries - old(h.entries)) && (h.table == old(h.table) || fresh(h.table))
    ensures h.contents == Bind(old(h.contents), h.eqfn, k, Bound(v))
  {
    h.Insert(k, Some(v), false, true, false);
  }

  lemma BoundTwice(a: string, b: string)
    requires a != b
    ensures Bind(Bind(map[], EqualKeys, a, Bound(1)), EqualKeys, b, Bound(2)) == map[a := Bound(1), b := Bound(2)]
  {
    assert Bind(map[], EqualKeys, a, Bound(1)) == map[a := Bound(1)];
  }

  /** Two keys, all bindings selected: the empty one stays. */
  method EmptyKeyKept() returns (h: HashTable<string, int>, ghost keys: seq<string>)
    ensures SelectedBy(None, map["a" := Bound(1), "" := Bound(2)], keys)
    ensures "" in keys && "" in h.contents
  {
    h := TwoKeys("a", "");
    var success;
    success, keys := DeleteMulti(h, None);
    EmptyKeyStays(map["a" := Bound(1), "" := Bound(2)], EqualKeys, keys);
  }

  /** Two keys, one of them selected: it stays and the other one goes. */
  method WrongKeyGone() returns (h: HashTable<string, int>, ghost keys: seq<string>)
    ensures keys == ["ARRAY::x"] && h.contents == map["ARRAY::x" := Bound(1)]
  {
    h := TwoKeys("ARRAY::x", "x");
    var callback := Some((k: string, v: Option<int>) => k == "ARRAY::x");
    var success;
    ghost var m := h.contents;
    success, keys := DeleteMulti(h, callback);
    OneSelected(callback, m, keys, "ARRAY::x");
    WrongValue();
    OneMissed("ARRAY::x", "x");
  }

  /** The callback sees the values: of two bindings the one with value 2 goes. */
  method ValueSelected() returns (h: HashTable<string, int>, success: bool, ghost keys: seq<string>)
    ensures keys == ["b"] && success && h.contents == map["a" := Bound(1)]
  {
    h := TwoKeys("a", "b");
    var callback := Some((k: string, v: Option<int>) => v == Some(2));
    ghost var m := h.contents;
    success, keys := DeleteMulti(h, callback);
    OneSelected(callback, m, keys, "b");
    PlainValue();
    OneMissed("a", "b");
    assert "b" in m && "b" !in h.contents && m["b"] == Bound(2);
  }

  lemma PlainValue()
    ensures Values(Recorded(["b"])) == ["b"]
  {
    var keys: seq<string> := ["b"];
    assert Recorded(keys) == Added(Recorded(keys[..0]), "b") && Recorded(keys[..0]) == [];
  }

  lemma OneSelected(callback: Callback<int>, m: map<string, Item<int>>, keys: seq<string>, k: string)
    requires SelectedBy(callback, m, keys) && k in m
    requires forall x :: x in m ==> (Selects(callback, x, m[x]) <==> x == k)
    ensures keys == [k]
  {
    assert Selects(callback, k, m[k]) && k in keys;
    assert |keys| > 1 ==> keys[0] != keys[1];
    forall i | 0 <= i < |keys| ensures keys[i] == k {
      assert keys[i] in keys;
    }
  }

  lemma OneMissed(a: string, b: string)
    requires a != b
    ensures Missed(map[a := Bound(1), b := Bound(2)], EqualKeys, [b]) == map[a := Bound(1)]
  {
    assert EqualKeys([b][0], b) && !EqualKeys(b, a);
  }

  lemma WrongValue()
    ensures Values(Recorded(["ARRAY::x"])) == ["x"]
  {
    var k := "ARRAY::x";
    assert k[7..] == "x" && Pieces("x") == ["x"];
    assert Pushed([], "x") == [Header("x", ["x"])];
    assert PushedAll([], ["x"], 1) == PushedAll(Pushed([], "x"), ["x"][1..], 1);
    var keys: seq<string> := [k];
    assert Recorded(keys) == Added(Recorded(keys[..0]), k) && Recorded(keys[..0]) == [];
  }
}
