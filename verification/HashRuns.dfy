/** Whole runs of duplicate-checked inserts, deletes and finds on one hash, growth steps included. */
module HashRuns {
  import opened Wrappers
  import opened EqMap
  import opened HashTable

  datatype Op<K, V> =
    | Insert(k: K, v: Option<V>, destructor: bool)
    | Delete(k: K)
    | Find(k: K)

  ghost function Apply<K, V>(m: map<K, Item<V>>, eq: (K, K) -> bool, op: Op<K, V>): map<K, Item<V>> {
    match op
    case Insert(k, v, d) => Bind(m, eq, k, Item(v, false, d))
    case Delete(k) => Without(m, eq, k)
    case Find(_) => m
  }

  /** The table's abstract value after a run. */
  ghost function Replay<K, V>(m: map<K, Item<V>>, eq: (K, K) -> bool, ops: seq<Op<K, V>>): map<K, Item<V>> {
    if ops == [] then m else Apply(Replay(m, eq, ops[..|ops| - 1]), eq, ops[|ops| - 1])
  }

  /** What an operation hands back, given the value of the table before it. */
  ghost function Answer<K, V>(m: map<K, Item<V>>, eq: (K, K) -> bool, op: Op<K, V>): Option<V> {
    match op
    case Insert(_, _, _) => None
    case Delete(k) =>
      (match Lookup(m, eq, k)
       case None => None
       case Some(item) => if item.freeValue || item.hasDestructor then None else item.value)
    case Find(k) => (match Lookup(m, eq, k) case None => None case Some(item) => item.value)
  }

  /** What every operation of a run on an empty hash hands back. */
  ghost function Answers<K, V>(eq: (K, K) -> bool, ops: seq<Op<K, V>>): seq<Option<V>> {
    if ops == [] then []
    else
      var front := ops[..|ops| - 1];
      Answers(eq, front) + [Answer(Replay(map[], eq, front), eq, ops[|ops| - 1])]
  }

  /** The binding of q that the history itself shows: the last insert or delete of a key equal to q. */
  ghost function LastWrite<K, V>(eq: (K, K) -> bool, ops: seq<Op<K, V>>, q: K): Option<Item<V>> {
    if ops == [] then None
    else match ops[|ops| - 1]
      case Insert(k, v, d) => if eq(k, q) then Some(Item(v, false, d)) else LastWrite(eq, ops[..|ops| - 1], q)
      case Delete(k) => if eq(k, q) then None else LastWrite(eq, ops[..|ops| - 1], q)
      case Find(_) => LastWrite(eq, ops[..|ops| - 1], q)
  }

  /** The abstract value answers every lookup by the last write to an equal key. */
  lemma {:induction false} LookupIsLastWrite<K(!new), V>(eq: (K, K) -> bool, ops: seq<Op<K, V>>, q: K)
    requires Equivalence(eq)
    ensures Distinct(Replay(map[], eq, ops), eq)
    ensures Lookup(Replay(map[], eq, ops), eq, q) == LastWrite(eq, ops, q)
  {
    if ops != [] {
      var front, op := ops[..|ops| - 1], ops[|ops| - 1];
      var m := Replay(map[], eq, front);
      LookupIsLastWrite(eq, front, q);
      match op
      case Insert(k, v, d) => LookupBind(m, eq, k, Item(v, false, d), q);
      case Delete(k) => LookupWithout(m, eq, k, q);
      case Find(_) =>
    }
  }

  /** So a find hands back the value last written under an equal key. */
  lemma FindIsLastWrite<K(!new), V>(eq: (K, K) -> bool, ops: seq<Op<K, V>>, q: K)
    requires Equivalence(eq)
    ensures Answers(eq, ops + [Find(q)]) ==
            Answers(eq, ops) + [match LastWrite(eq, ops, q) case None => None case Some(item) => item.value]
  {
    assert (ops + [Find(q)])[..|ops|] == ops;
    LookupIsLastWrite(eq, ops, q);
  }

  /** The last insert of a key equal to q, unless a delete came after it. */
  ghost predicate LastInsert<K, V>(eq: (K, K) -> bool, ops: seq<Op<K, V>>, q: K, i: nat) {
    && i < |ops| && ops[i].Insert? && eq(ops[i].k, q)
    && forall j :: i < j < |ops| && !ops[j].Find? ==> !eq(ops[j].k, q)
  }

  lemma {:induction false} LastWriteIs<K, V>(eq: (K, K) -> bool, ops: seq<Op<K, V>>, q: K)
    ensures forall i: nat :: LastInsert(eq, ops, q, i) ==> LastWrite(eq, ops, q) == Some(Item(ops[i].v, false, ops[i].destructor))
    ensures (forall i: nat :: !LastInsert(eq, ops, q, i)) ==> LastWrite(eq, ops, q) == None
  {
    if ops != [] {
      var n := |ops| - 1;
      LastWriteIs(eq, ops[..n], q);
      forall i: nat | i < n ensures LastInsert(eq, ops, q, i) <==> LastInsert(eq, ops[..n], q, i) && (ops[n].Find? || !eq(ops[n].k, q)) {
      }
      assert LastInsert(eq, ops, q, n) <==> ops[n].Insert? && eq(ops[n].k, q);
    }
  }

  /** And a delete hands back that value, unless it was inserted with a destructor. */
  lemma DeleteIsLastWrite<K(!new), V>(eq: (K, K) -> bool, ops: seq<Op<K, V>>, q: K, answer: Option<V>)
    requires Equivalence(eq) && Answers(eq, ops + [Delete(q)]) == Answers(eq, ops) + [answer]
    ensures forall i: nat :: LastInsert(eq, ops, q, i) ==> answer == if ops[i].destructor then None else ops[i].v
    ensures (forall i: nat :: !LastInsert(eq, ops, q, i)) ==> answer == None
  {
    assert (ops + [Delete(q)])[..|ops|] == ops;
    LookupIsLastWrite(eq, ops, q);
    LastWriteIs(eq, ops, q);
    assert (Answers(eq, ops) + [answer])[|Answers(eq, ops)|] == answer;
  }

  method Step<K(!new), V>(h: HashTable<K, V>, op: Op<K, V>) returns (v: Option<V>)
    requires h.Valid()
    modifies h, h.table, h.entries
    ensures h.Valid() && fresh(h.entries - old(h.entries)) && (h.table == old(h.table) || fresh(h.table))
    ensures h.contents == Apply(old(h.contents), h.eqfn, op)
    ensures v == Answer(old(h.contents), h.eqfn, op)
  {
    match op
    case Insert(k, x, d) =>
      h.Insert(k, x, false, true, d);
      v := None;
    case Delete(k) => v := h.Remove(k);
    case Find(k) => v := h.Search(k);
  }

  /** From an empty hash, every answer of every run is the one the history dictates. */
  method Run<K(!new), V>(h: HashTable<K, V>, ops: seq<Op<K, V>>) returns (answers: seq<Option<V>>)
    requires h.Valid() && h.contents == map[]
    modifies h, h.table, h.entries
    ensures h.Valid() && fresh(h.entries - old(h.entries)) && (h.table == old(h.table) || fresh(h.table))
    ensures h.contents == Replay(map[], h.eqfn, ops)
    ensures answers == Answers(h.eqfn, ops)
    decreases |ops|
  {
    answers := [];
    if |ops| > 0 {
      answers := Run(h, ops[..|ops| - 1]);
      var v := Step(h, ops[|ops| - 1]);
      answers := answers + [v];
    }
  }
}
