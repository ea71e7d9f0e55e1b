/**
 The chained hash table: buckets of linked entries, cached hashes, prime-sized growth, and an
 iterator. Its abstract value is a map modulo the caller's key equality.
 */
module HashTable {
  import opened Wrappers
  import opened EqMap
  import opened Sequences

  function Primes(): (ps: seq<nat>)
    ensures |ps| == LAST_PRIME + 1
  {
    [
      53, 97, 193, 389,
      769, 1543, 3079, 6151,
      12289, 24593, 49157, 98317,
      196613, 393241, 786433, 1572869,
      3145739, 6291469, 12582917, 25165843,
      50331653, 100663319, 201326611, 402653189,
      805306457, 1610612741
    ]
  }

  const LAST_PRIME: nat := 25

  function Prime(i: nat): (p: nat)
    requires i <= LAST_PRIME
    ensures p >= 53
  {
    Primes()[i]
  }

  const MAX_MINSIZE: nat := 0x4000_0000

  /** ceil(size * 0.65) */
  function LoadLimit(size: nat): nat {
    (65 * size + 99) / 100
  }

  function IndexFor(tablelength: nat, hash: nat): (i: nat)
    requires tablelength > 0
    ensures i < tablelength
  {
    hash % tablelength
  }

  predicate NoSmallFactor(p: nat) {
    && p % 2 != 0 && p % 3 != 0 && p % 5 != 0 && p % 7 != 0 && p % 11 != 0
    && p % 13 != 0 && p % 17 != 0 && p % 19 != 0 && p % 23 != 0 && p % 29 != 0
  }

  /** The sizes start at 53, have no small factors, and nearly double from one to the next. */
  lemma SizesDouble(i: nat)
    requires i <= LAST_PRIME
    ensures Prime(0) == 53 && NoSmallFactor(Prime(i))
    ensures i < LAST_PRIME ==> 2 * Prime(i) - 174 < Prime(i + 1) < 2 * Prime(i) + 80
  {
  }

  /** The load limit is 65 percent of the size, rounded up; a bucket's number is the hash less a multiple of the length. */
  lemma LimitAndIndex(size: nat, hash: nat)
    requires size > 0
    ensures 100 * (LoadLimit(size) - 1) < 65 * size <= 100 * LoadLimit(size)
    ensures hash == hash / size * size + IndexFor(size, hash)
  {
  }

  /** Growing by one prime always makes room for one more entry than the old limit. */
  lemma NextPrimeRaisesLimit(i: nat)
    requires i < LAST_PRIME
    ensures Prime(i + 1) > Prime(i)
    ensures LoadLimit(Prime(i + 1)) > LoadLimit(Prime(i))
  {
  }

  /** What an entry binds its key to, and whether a removal frees the value or hands it to a destructor. */
  datatype Item<+V> = Item(value: Option<V>, freeValue: bool, hasDestructor: bool)

  class Entry<K, V> {
    const h: nat
    const k: K
    const item: Item<V>
    var next: Entry?<K, V>

    constructor (h: nat, k: K, item: Item<V>, next: Entry?<K, V>)
      ensures this.h == h && this.k == k && this.item == item && this.next == next
    {
      this.h, this.k, this.item, this.next := h, k, item, next;
    }
  }

  /** The link to position j of a chain: null past its end. */
  ghost function At<K, V>(chain: seq<Entry<K, V>>, j: nat): Entry?<K, V> {
    if j < |chain| then chain[j] else null
  }

  /** The bucket heads and next links spell out exactly the given chains. */
  ghost predicate Linked<K, V>(heads: seq<Entry?<K, V>>, chains: seq<seq<Entry<K, V>>>, entries: set<Entry<K, V>>)
    reads entries
  {
    && |heads| == |chains|
    && (forall i :: 0 <= i < |chains| ==> heads[i] == At(chains[i], 0))
    && (forall i, j :: 0 <= i < |chains| && 0 <= j < |chains[i]| ==> chains[i][j] in entries)
    && (forall i, j {:trigger chains[i][j].next} :: 0 <= i < |chains| && 0 <= j < |chains[i]| ==>
          chains[i][j].next == At(chains[i], j + 1))
  }

  /** Every entry sits once, in the bucket of its cached hash. */
  ghost predicate Bucketed<K, V>(chains: seq<seq<Entry<K, V>>>) {
    && |chains| > 0
    && (forall i :: 0 <= i < |chains| ==> NoRepeats(chains[i]))
    && (forall i, j :: 0 <= i < |chains| && 0 <= j < |chains[i]| ==> IndexFor(|chains|, chains[i][j].h) == i)
  }

  ghost predicate InTable<K, V>(chains: seq<seq<Entry<K, V>>>, e: Entry<K, V>)
    requires |chains| > 0
  {
    e in chains[IndexFor(|chains|, e.h)]
  }

  /**
   Each entry is a binding of m, and there are as many of them as m has bindings. With keys distinct
   every binding then has its entry: OwnerExists below.
   */
  ghost predicate Represents<K, V>(entries: set<Entry<K, V>>, m: map<K, Item<V>>) {
    && (forall e :: e in entries ==> e.k in m && m[e.k] == e.item)
    && |entries| == |m|
  }

  ghost predicate KeysDistinct<K, V>(entries: set<Entry<K, V>>, eqfn: (K, K) -> bool) {
    forall e, f {:trigger eqfn(e.k, f.k)} :: e in entries && f in entries && eqfn(e.k, f.k) ==> e == f
  }

  function Drop<T>(s: seq<T>, j: nat): seq<T>
    requires j < |s|
  {
    s[..j] + s[j + 1..]
  }

  lemma DropKeeps<T>(s: seq<T>, j: nat, x: T)
    requires j < |s| && NoRepeats(s)
    ensures NoRepeats(Drop(s, j))
    ensures x in Drop(s, j) <==> x in s && x != s[j]
  {
    if x in s && x != s[j] {
      var p :| 0 <= p < |s| && s[p] == x;
      assert Drop(s, j)[if p < j then p else p - 1] == x;
    }
  }

  /** Taking one entry out of its bucket loses that entry and no other. */
  lemma DropEntry<K, V>(chains: seq<seq<Entry<K, V>>>, i: nat, j: nat)
    requires Bucketed(chains) && i < |chains| && j < |chains[i]|
    ensures Bucketed(chains[i := Drop(chains[i], j)])
    ensures forall f :: InTable(chains[i := Drop(chains[i], j)], f) <==> InTable(chains, f) && f != chains[i][j]
  {
    var c: seq<seq<Entry<K, V>>> := chains[i := Drop(chains[i], j)];
    assert |c| == |chains|;
    DropKeeps(chains[i], j, chains[i][j]);
    forall f ensures InTable(c, f) <==> InTable(chains, f) && f != chains[i][j] {
      DropKeeps(chains[i], j, f);
      assert IndexFor(|chains|, chains[i][j].h) == i;
    }
    forall p: int, q: int | 0 <= p < |c| && 0 <= q < |c[p]| ensures IndexFor(|c|, c[p][q].h) == p {
      if p == i {
        assert c[p][q] == chains[i][if q < j then q else q + 1];
      } else {
        assert c[p][q] == chains[p][q];
      }
    }
  }

  /** Putting a new entry at the head of its bucket adds that entry and no other. */
  lemma AddEntry<K, V>(chains: seq<seq<Entry<K, V>>>, e: Entry<K, V>)
    requires Bucketed(chains) && !InTable(chains, e)
    ensures var i := IndexFor(|chains|, e.h);
            && Bucketed(chains[i := [e] + chains[i]])
            && forall f :: InTable(chains[i := [e] + chains[i]], f) <==> InTable(chains, f) || f == e
  {
    var i := IndexFor(|chains|, e.h);
    var c: seq<seq<Entry<K, V>>> := chains[i := [e] + chains[i]];
    assert |c| == |chains|;
    forall p: int, q: int | 0 <= p < |c| && 0 <= q < |c[p]| ensures IndexFor(|c|, c[p][q].h) == p {
      if p == i && q > 0 {
        assert c[p][q] == chains[i][q - 1];
      } else if p != i {
        assert c[p][q] == chains[p][q];
      }
    }
    assert forall p :: 0 <= p < |c| && p != i ==> c[p] == chains[p];
    assert NoRepeats(c[i]) by {
      assert e !in chains[i];
    }
  }

  lemma {:induction false} OwnerExists<K(!new), V>(entries: set<Entry<K, V>>, m: map<K, Item<V>>, eqfn: (K, K) -> bool, k: K)
    requires Equivalence(eqfn) && KeysDistinct(entries, eqfn) && Represents(entries, m) && k in m
    ensures exists e :: e in entries && e.k == k
    decreases |entries|
  {
    var f :| f in entries;
    if f.k != k {
      forall e | e in entries - {f} ensures e.k != f.k {
        assert eqfn(f.k, f.k);
      }
      assert m.Keys == (m - {f.k}).Keys + {f.k};
      OwnerExists(entries - {f}, m - {f.k}, eqfn, k);
    }
  }

  /** Dropping the entry that answers to k removes k from the represented map. */
  lemma DropBinding<K(!new), V>(entries: set<Entry<K, V>>, m: map<K, Item<V>>, eqfn: (K, K) -> bool, k: K, e: Entry<K, V>)
    requires Equivalence(eqfn) && KeysDistinct(entries, eqfn) && Represents(entries, m)
    requires e in entries && eqfn(k, e.k)
    ensures Represents(entries - {e}, Without(m, eqfn, k))
  {
    forall x | x in m && eqfn(k, x) ensures x == e.k {
      OwnerExists(entries, m, eqfn, x);
      var f :| f in entries && f.k == x;
      assert Via(f.k, k, e.k);
    }
    forall f | f in entries - {e} ensures !eqfn(k, f.k) {
      assert Via(f.k, k, e.k);
    }
    assert m.Keys == Without(m, eqfn, k).Keys + {e.k};
  }

  /** An entry whose key answers to nothing yet binds that key. */
  lemma AddBinding<K(!new), V>(entries: set<Entry<K, V>>, m: map<K, Item<V>>, e: Entry<K, V>)
    requires Represents(entries, m) && e !in entries && e.k !in m
    ensures Represents(entries + {e}, m[e.k := e.item])
    ensures |entries + {e}| == |entries| + 1
  {
    assert m[e.k := e.item].Keys == m.Keys + {e.k};
  }

  /** Everything about the table's value that does not depend on the links. */
  ghost predicate Shape<K(!new), V>(hashfn: K -> nat, eqfn: (K, K) -> bool, chains: seq<seq<Entry<K, V>>>,
                                    entries: set<Entry<K, V>>, m: map<K, Item<V>>)
  {
    && Bucketed(chains)
    && (forall e :: e in entries ==> e.h == hashfn(e.k) && InTable(chains, e))
    && KeysDistinct(entries, eqfn)
    && Represents(entries, m)
  }

  lemma DropShape<K(!new), V>(hashfn: K -> nat, eqfn: (K, K) -> bool, chains: seq<seq<Entry<K, V>>>,
                              entries: set<Entry<K, V>>, m: map<K, Item<V>>, k: K, i: nat, j: nat)
    requires Equivalence(eqfn) && Shape(hashfn, eqfn, chains, entries, m)
    requires i < |chains| && j < |chains[i]| && chains[i][j] in entries && eqfn(k, chains[i][j].k)
    ensures Shape(hashfn, eqfn, chains[i := Drop(chains[i], j)], entries - {chains[i][j]}, Without(m, eqfn, k))
  {
    DropEntry(chains, i, j);
    DropBinding(entries, m, eqfn, k, chains[i][j]);
  }

  lemma PushShape<K(!new), V>(hashfn: K -> nat, eqfn: (K, K) -> bool, chains: seq<seq<Entry<K, V>>>,
                              entries: set<Entry<K, V>>, m: map<K, Item<V>>, e: Entry<K, V>)
    requires Equivalence(eqfn) && Shape(hashfn, eqfn, chains, entries, m)
    requires e !in entries && e.k !in m && e.h == hashfn(e.k) && !InTable(chains, e)
    requires forall f :: f in entries ==> !eqfn(e.k, f.k)
    ensures var i := IndexFor(|chains|, e.h);
            Shape(hashfn, eqfn, chains[i := [e] + chains[i]], entries + {e}, m[e.k := e.item])
    ensures |entries + {e}| == |entries| + 1
  {
    AddEntry(chains, e);
    AddBinding(entries, m, e);
  }

  class HashTable<K(!new), V> {
    const hashfn: K -> nat
    const eqfn: (K, K) -> bool
    var table: array<Entry?<K, V>>
    var entrycount: nat
    var loadlimit: nat
    var primeindex: nat
    ghost var chains: seq<seq<Entry<K, V>>>
    ghost var entries: set<Entry<K, V>>
    ghost var contents: map<K, Item<V>>

    /** The pointer structure and what it represents, whatever the counters say. */
    ghost predicate Structure()
      reads this, table, entries
    {
      && Equivalence(eqfn) && Respects(eqfn, hashfn)
      && primeindex <= LAST_PRIME && table.Length == Prime(primeindex)
      && loadlimit == LoadLimit(table.Length)
      && Linked(table[..], chains, entries)
      && Shape(hashfn, eqfn, chains, entries, contents)
    }

    ghost predicate Valid()
      reads this, table, entries
    {
      && Structure()
      && entrycount == |entries|
      && (entrycount <= loadlimit || primeindex == LAST_PRIME)
    }

    lemma ContentsDistinct()
      requires Structure()
      ensures Distinct(contents, eqfn)
    {
      forall x, y | x in contents && y in contents && eqfn(x, y) ensures x == y {
        OwnerExists(entries, contents, eqfn, x);
        OwnerExists(entries, contents, eqfn, y);
        var e :| e in entries && e.k == x;
        var f :| f in entries && f.k == y;
        assert eqfn(e.k, f.k);
      }
    }

    constructor (minsize: nat, hashfn: K -> nat, eqfn: (K, K) -> bool)
      requires minsize <= MAX_MINSIZE
      requires Equivalence(eqfn) && Respects(eqfn, hashfn)
      ensures Valid() && fresh(table) && entries == {}
      ensures contents == map[]
      ensures this.hashfn == hashfn && this.eqfn == eqfn
      ensures Prime(primeindex) > minsize
      ensures forall p :: 0 <= p < primeindex ==> Prime(p) <= minsize
    {
      var pindex := 0;
      while Prime(pindex) <= minsize
        invariant pindex <= LAST_PRIME
        invariant forall p :: 0 <= p < pindex ==> Prime(p) <= minsize
        decreases LAST_PRIME - pindex
      {
        assert Prime(LAST_PRIME) > minsize;
        pindex := pindex + 1;
      }
      var size := Prime(pindex);
      this.hashfn, this.eqfn := hashfn, eqfn;
      table := new Entry?<K, V>[size](_ => null);
      entrycount, primeindex, loadlimit := 0, pindex, LoadLimit(size);
      chains := seq(size, _ => []);
      entries, contents := {}, map[];
    }

    /** The entry that answers to k, if any, is the one in k's own bucket. */
    lemma AnswerInBucket(k: K, e: Entry<K, V>)
      requires Structure() && e in entries && eqfn(k, e.k)
      ensures e.h == hashfn(k) && e in chains[IndexFor(|chains|, hashfn(k))]
      ensures Lookup(contents, eqfn, k) == Some(e.item)
      ensures forall x :: x in contents && eqfn(k, x) ==> x == e.k
    {
      ContentsDistinct();
      LookupIs(contents, eqfn, k, e.k);
      forall x | x in contents && eqfn(k, x) ensures x == e.k {
        assert Via(x, k, e.k);
      }
    }

    /** After the duplicate check, or when the caller vouches for the key, no entry answers to it. */
    lemma NothingAnswers(k: K, m: map<K, Item<V>>)
      requires Structure() && (contents == Without(m, eqfn, k) || (contents == m && Lookup(m, eqfn, k) == None))
      ensures forall f :: f in entries ==> !eqfn(k, f.k)
      ensures contents == Without(m, eqfn, k) && k !in contents
    {
      assert eqfn(k, k);
      forall f | f in entries ensures !eqfn(k, f.k) {
        if eqfn(k, f.k) {
          AnswerInBucket(k, f);
        }
      }
      forall x | x in contents ensures !eqfn(k, x) {
        OwnerExists(entries, contents, eqfn, x);
      }
    }

    lemma NoAnswer(k: K)
      requires Structure()
      requires forall e :: e in chains[IndexFor(|chains|, hashfn(k))] ==> !(hashfn(k) == e.h && eqfn(k, e.k))
      ensures Lookup(contents, eqfn, k) == None
      ensures Without(contents, eqfn, k) == contents
      ensures forall e :: e in entries ==> !eqfn(k, e.k)
    {
      forall e | e in entries ensures !eqfn(k, e.k) {
        if eqfn(k, e.k) {
          AnswerInBucket(k, e);
        }
      }
      forall x | x in contents ensures !eqfn(k, x) {
        OwnerExists(entries, contents, eqfn, x);
      }
    }

    /** The walk along k's bucket, keeping the entry whose link leads to the current one. */
    method Walk(k: K, hashvalue: nat, index: nat) returns (prev: Entry?<K, V>, e: Entry?<K, V>, ghost j: nat)
      requires Structure() && hashvalue == hashfn(k) && index == IndexFor(table.Length, hashvalue)
      ensures e == null ==> Lookup(contents, eqfn, k) == None && Without(contents, eqfn, k) == contents
      ensures e == null ==> forall f :: f in entries ==> !eqfn(k, f.k)
      ensures e != null ==> e in entries && eqfn(k, e.k) && Lookup(contents, eqfn, k) == Some(e.item)
      ensures e != null ==> j < |chains[index]| && e == chains[index][j]
      ensures e != null ==> prev == if j == 0 then null else chains[index][j - 1]
    {
      prev, e, j := null, table[index], 0;
      ghost var chain := chains[index];
      while e != null
        invariant j <= |chain| && e == At(chain, j)
        invariant prev == if j == 0 then null else chain[j - 1]
        invariant forall i :: 0 <= i < j ==> !(hashvalue == chain[i].h && eqfn(k, chain[i].k))
        decreases |chain| - j
      {
        assert chains[index][j] == e;
        if hashvalue == e.h && eqfn(k, e.k) {
          AnswerInBucket(k, e);
          return;
        }
        prev, e, j := e, e.next, j + 1;
      }
      NoAnswer(k);
    }

    method Search(k: K) returns (v: Option<V>)
      requires Valid()
      ensures v == match Lookup(contents, eqfn, k) case None => None case Some(item) => item.value
    {
      var hashvalue := hashfn(k);
      var _, e, _ := Walk(k, hashvalue, IndexFor(table.Length, hashvalue));
      return if e == null then None else e.item.value;
    }

    /** The write through the slot or link that points at position j of a bucket. */
    method Unlink(index: nat, ghost j: nat, prev: Entry?<K, V>, e: Entry<K, V>, ghost m: map<K, Item<V>>)
      requires index < table.Length && Linked(table[..], chains, entries) && Bucketed(chains)
      requires j < |chains[index]| && e == chains[index][j] && entrycount > 0
      requires prev == if j == 0 then null else chains[index][j - 1]
      modifies this`entrycount, this`chains, this`entries, this`contents, table, entries
      ensures Linked(table[..], chains, entries)
      ensures chains == old(chains[index := Drop(chains[index], j)]) && entries == old(entries) - {e} && contents == m
      ensures entrycount == old(entrycount) - 1
    {
      if prev == null {
        table[index] := e.next;
      } else {
        prev.next := e.next;
      }
      entrycount := entrycount - 1;
      ghost var c := chains[index := Drop(chains[index], j)];
      forall p, q | 0 <= p < |c| && 0 <= q < |c[p]|
        ensures c[p][q] in entries - {e} && c[p][q].next == At(c[p], q + 1)
      {
        if p != index {
          assert c[p][q] == chains[p][q];
          assert IndexFor(|chains|, c[p][q].h) == p;
        } else {
          assert c[p][q] == chains[p][if q < j then q else q + 1];
        }
      }
      assert Linked(table[..], c, entries - {e});
      chains, entries, contents := c, entries - {e}, m;
    }

    /** Takes out the entry that answers to k, found at position j of its bucket. */
    method TakeOut(k: K, index: nat, ghost j: nat, prev: Entry?<K, V>, e: Entry<K, V>)
      requires Valid() && index < |chains| && j < |chains[index]| && e == chains[index][j]
      requires e in entries && eqfn(k, e.k)
      requires prev == if j == 0 then null else chains[index][j - 1]
      modifies this`entrycount, this`chains, this`entries, this`contents, table, entries
      ensures Valid() && entries == old(entries) - {e}
      ensures contents == Without(old(contents), eqfn, k)
    {
      DropShape(hashfn, eqfn, chains, entries, contents, k, index, j);
      Unlink(index, j, prev, e, Without(contents, eqfn, k));
    }

    method RemoveHashed(k: K, hashvalue: nat, index: nat) returns (v: Option<V>)
      requires Valid() && hashvalue == hashfn(k) && index == IndexFor(table.Length, hashvalue)
      modifies this`entrycount, this`chains, this`entries, this`contents, table, entries
      ensures Valid() && entries <= old(entries)
      ensures contents == Without(old(contents), eqfn, k)
      ensures match Lookup(old(contents), eqfn, k)
              case None => v == None
              case Some(item) => v == if item.freeValue || item.hasDestructor then None else item.value
    {
      var prev, e, j := Walk(k, hashvalue, index);
      if e == null {
        return None;
      }
      v := e.item.value;
      if e.item.freeValue {
        v := None;
      } else if e.item.hasDestructor {
        v := None;
      }
      TakeOut(k, index, j, prev, e);
    }

    method Remove(k: K) returns (v: Option<V>)
      requires Valid()
      modifies this`entrycount, this`chains, this`entries, this`contents, table, entries
      ensures Valid() && entries <= old(entries)
      ensures contents == Without(old(contents), eqfn, k)
      ensures match Lookup(old(contents), eqfn, k)
              case None => v == None
              case Some(item) => v == if item.freeValue || item.hasDestructor then None else item.value
    {
      var hashvalue := hashfn(k);
      v := RemoveHashed(k, hashvalue, IndexFor(table.Length, hashvalue));
    }

    /** Partway through a growth step: every entry is in exactly one of the two tables. */
    ghost predicate Moving(from: array<Entry?<K, V>>, to: array<Entry?<K, V>>,
                           olds: seq<seq<Entry<K, V>>>, news: seq<seq<Entry<K, V>>>)
      reads this`entries, entries, from, to
    {
      && from != to
      && Linked(from[..], olds, entries) && Linked(to[..], news, entries)
      && Bucketed(olds) && Bucketed(news)
      && forall e :: e in entries ==> (InTable(olds, e) <==> !InTable(news, e))
    }

    /** The four pointer writes that relink the head of an old bucket at the head of its new bucket. */
    method Relink(from: array<Entry?<K, V>>, to: array<Entry?<K, V>>, i: nat,
                  ghost olds: seq<seq<Entry<K, V>>>, ghost news: seq<seq<Entry<K, V>>>)
      requires from != to && i < from.Length && from[i] != null
      requires Linked(from[..], olds, entries) && Linked(to[..], news, entries)
      requires Bucketed(olds) && Bucketed(news)
      requires InTable(olds, from[i]) && !InTable(news, from[i])
      modifies from, to, entries
      ensures var e := old(from[i]);
              var index := IndexFor(to.Length, e.h);
              && Linked(from[..], olds[i := Drop(olds[i], 0)], entries)
              && Linked(to[..], news[index := [e] + news[index]], entries)
    {
      var e := from[i];
      from[i] := e.next;
      var index := IndexFor(to.Length, e.h);
      e.next := to[index];
      to[index] := e;
      ghost var c, d := olds[i := Drop(olds[i], 0)], news[index := [e] + news[index]];
      forall p, q | 0 <= p < |c| && 0 <= q < |c[p]| ensures c[p][q] in entries && c[p][q].next == At(c[p], q + 1) {
        assert c[p][q] == olds[p][if p == i then q + 1 else q];
        assert IndexFor(|olds|, c[p][q].h) == p;
      }
      forall p, q | 0 <= p < |d| && 0 <= q < |d[p]| ensures d[p][q] in entries && d[p][q].next == At(d[p], q + 1) {
        if p == index && q > 0 {
          assert d[p][q] == news[p][q - 1];
        } else if p != index {
          assert d[p][q] == news[p][q];
          assert IndexFor(|news|, d[p][q].h) == p;
        }
      }
    }

    method MoveHead(from: array<Entry?<K, V>>, to: array<Entry?<K, V>>, i: nat,
                    ghost olds: seq<seq<Entry<K, V>>>, ghost news: seq<seq<Entry<K, V>>>)
      returns (ghost olds': seq<seq<Entry<K, V>>>, ghost news': seq<seq<Entry<K, V>>>)
      requires Moving(from, to, olds, news) && i < from.Length && from[i] != null
      modifies from, to, entries
      ensures Moving(from, to, olds', news') && |news'| == |news|
      ensures olds[i] != [] && olds' == olds[i := Drop(olds[i], 0)]
    {
      ghost var e := from[i];
      assert e == olds[i][0];
      assert IndexFor(|olds|, e.h) == i;
      DropEntry(olds, i, 0);
      AddEntry(news, e);
      ghost var index := IndexFor(|news|, e.h);
      Relink(from, to, i, olds, news);
      olds', news' := olds[i := Drop(olds[i], 0)], news[index := [e] + news[index]];
    }

    method MoveBucket(from: array<Entry?<K, V>>, to: array<Entry?<K, V>>, i: nat,
                      ghost olds: seq<seq<Entry<K, V>>>, ghost news: seq<seq<Entry<K, V>>>)
      returns (ghost olds': seq<seq<Entry<K, V>>>, ghost news': seq<seq<Entry<K, V>>>)
      requires Moving(from, to, olds, news) && i < from.Length
      modifies from, to, entries
      ensures Moving(from, to, olds', news') && olds' == olds[i := []]
    {
      olds', news' := olds, news;
      while from[i] != null
        invariant Moving(from, to, olds', news')
        invariant |olds'| == |olds| && olds' == olds[i := olds'[i]]
        decreases |olds'[i]|
      {
        olds', news' := MoveHead(from, to, i, olds', news');
      }
      assert from[..][i] == At(olds'[i], 0);
    }

    method MoveAll(from: array<Entry?<K, V>>, to: array<Entry?<K, V>>,
                   ghost olds: seq<seq<Entry<K, V>>>, ghost news: seq<seq<Entry<K, V>>>)
      returns (ghost news': seq<seq<Entry<K, V>>>)
      requires Moving(from, to, olds, news)
      modifies from, to, entries
      ensures Linked(to[..], news', entries) && Bucketed(news')
      ensures forall e :: e in entries ==> InTable(news', e)
    {
      ghost var olds' := olds;
      news' := news;
      for i := 0 to from.Length
        invariant Moving(from, to, olds', news') && |olds'| == from.Length
        invariant forall p :: 0 <= p < i ==> olds'[p] == []
      {
        olds', news' := MoveBucket(from, to, i, olds', news');
      }
    }

    method Install(newtable: array<Entry?<K, V>>, ghost news: seq<seq<Entry<K, V>>>)
      requires Equivalence(eqfn) && Respects(eqfn, hashfn)
      requires primeindex < LAST_PRIME && newtable.Length == Prime(primeindex + 1)
      requires Linked(newtable[..], news, entries) && Shape(hashfn, eqfn, news, entries, contents)
      modifies this`table, this`primeindex, this`loadlimit, this`chains
      ensures Structure() && table == newtable && primeindex == old(primeindex) + 1
    {
      primeindex := primeindex + 1;
      table, chains, loadlimit := newtable, news, LoadLimit(newtable.Length);
    }

    method EmptyTable(size: nat) returns (t: array<Entry?<K, V>>, ghost c: seq<seq<Entry<K, V>>>)
      requires size > 0
      ensures fresh(t) && t.Length == size
      ensures Linked(t[..], c, entries) && Bucketed(c)
      ensures forall e :: e in entries ==> !InTable(c, e)
    {
      t := new Entry?<K, V>[size](_ => null);
      c := seq(size, _ => []);
    }

    /** Moves every entry, chain head first, into a table of the next prime size. */
    method Expand()
      requires Structure()
      modifies this`table, this`primeindex, this`loadlimit, this`chains, table, entries
      ensures Structure()
      ensures primeindex == if old(primeindex) == LAST_PRIME then LAST_PRIME else old(primeindex) + 1
      ensures table == old(table) || fresh(table)
      ensures old(primeindex) < LAST_PRIME ==> loadlimit > old(loadlimit)
    {
      if primeindex == LAST_PRIME {
        return;
      }
      NextPrimeRaisesLimit(primeindex);
      var newsize := Prime(primeindex + 1);
      var newtable, news := EmptyTable(newsize);
      news := MoveAll(table, newtable, chains, news);
      assert Shape(hashfn, eqfn, news, entries, contents);
      Install(newtable, news);
    }

    method LinkNew(e: Entry<K, V>, index: nat)
      requires Linked(table[..], chains, entries) && Bucketed(chains)
      requires index < table.Length && e.next == table[index] && e !in entries
      modifies this`chains, this`entries, this`contents, table
      ensures Linked(table[..], chains, entries)
      ensures chains == old(chains[index := [e] + chains[index]]) && entries == old(entries) + {e}
      ensures contents == old(contents)[e.k := e.item]
    {
      table[index] := e;
      ghost var c := chains[index := [e] + chains[index]];
      forall p, q | 0 <= p < |c| && 0 <= q < |c[p]|
        ensures c[p][q] in entries + {e} && c[p][q].next == At(c[p], q + 1)
      {
        if p != index || q > 0 {
          assert c[p][q] == chains[p][if p == index then q - 1 else q];
        }
      }
      assert Linked(table[..], c, entries + {e});
      chains, entries, contents := c, entries + {e}, contents[e.k := e.item];
    }

    /** A new entry at the head of its bucket. */
    method Push(k: K, hashvalue: nat, index: nat, item: Item<V>)
      requires Structure() && hashvalue == hashfn(k) && index == IndexFor(table.Length, hashvalue)
      requires k !in contents && forall f :: f in entries ==> !eqfn(k, f.k)
      requires entrycount == |entries| + 1 && (entrycount <= loadlimit || primeindex == LAST_PRIME)
      modifies this`chains, this`entries, this`contents, table
      ensures Valid() && fresh(entries - old(entries))
      ensures contents == old(contents)[k := item]
    {
      var e := new Entry<K, V>(hashvalue, k, item, table[index]);
      PushShape(hashfn, eqfn, chains, entries, contents, e);
      LinkNew(e, index);
    }

    /** The duplicate check: afterwards no entry answers to k. */
    method Vacate(k: K, hashvalue: nat, dupCheck: bool)
      requires Valid() && hashvalue == hashfn(k)
      requires dupCheck || Lookup(contents, eqfn, k) == None
      modifies this`entrycount, this`chains, this`entries, this`contents, table, entries
      ensures Valid() && entries <= old(entries)
      ensures contents == Without(old(contents), eqfn, k)
      ensures k !in contents && forall f :: f in entries ==> !eqfn(k, f.k)
    {
      if dupCheck {
        var _ := RemoveHashed(k, hashvalue, IndexFor(table.Length, hashvalue));
      }
      NothingAnswers(k, old(contents));
    }

    /** Counts one more entry, growing the table when it is over its limit. */
    method Grow()
      requires Valid()
      modifies this`entrycount, this`table, this`primeindex, this`loadlimit, this`chains, table, entries
      ensures Structure() && entrycount == |entries| + 1
      ensures entrycount <= loadlimit || primeindex == LAST_PRIME
      ensures table == old(table) || fresh(table)
    {
      entrycount := entrycount + 1;
      if entrycount > loadlimit {
        Expand();
      }
    }

    method Insert(k: K, v: Option<V>, freeValue: bool, dupCheck: bool, hasDestructor: bool)
      requires Valid()
      requires dupCheck || Lookup(contents, eqfn, k) == None
      modifies this, table, entries
      ensures Valid() && fresh(entries - old(entries)) && (table == old(table) || fresh(table))
      ensures contents == Bind(old(contents), eqfn, k, Item(v, freeValue, hasDestructor))
    {
      var hashvalue := hashfn(k);
      Vacate(k, hashvalue, dupCheck);
      Grow();
      Push(k, hashvalue, IndexFor(table.Length, hashvalue), Item(v, freeValue, hasDestructor));
    }
  }

  /** An empty table of the first prime size above minsize, unless minsize is too large. */
  method Create<K(!new), V>(minsize: nat, hashfn: K -> nat, eqfn: (K, K) -> bool) returns (h: HashTable?<K, V>)
    requires Equivalence(eqfn) && Respects(eqfn, hashfn)
    ensures h == null <==> minsize > 1073741824
    ensures h != null ==>
              && fresh(h) && h.Valid() && fresh(h.table) && h.entries == {} && h.contents == map[]
              && h.hashfn == hashfn && h.eqfn == eqfn
              && Prime(h.primeindex) > minsize
              && forall p :: 0 <= p < h.primeindex ==> Prime(p) <= minsize
  {
    if minsize > MAX_MINSIZE {
      return null;
    }
    h := new HashTable(minsize, hashfn, eqfn);
  }
}
