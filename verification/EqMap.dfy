/**
 Maps whose keys are compared by a caller-supplied equality, the abstract value of a hash table.
 At most one key of such a map answers to any key asked for.
 */
module EqMap {
  import opened Wrappers

  /** Names the instances of transitivity that a proof uses. */
  ghost predicate Via<K>(x: K, y: K, z: K) {
    true
  }

  ghost predicate Equivalence<K(!new)>(eq: (K, K) -> bool) {
    && (forall x :: eq(x, x))
    && (forall x, y :: eq(x, y) ==> eq(y, x))
    && (forall x, y, z {:trigger Via(x, y, z)} :: eq(x, y) && eq(y, z) ==> eq(x, z))
  }

  ghost predicate Respects<K(!new)>(eq: (K, K) -> bool, hash: K -> nat) {
    forall x, y :: eq(x, y) ==> hash(x) == hash(y)
  }

  ghost predicate Distinct<K, I>(m: map<K, I>, eq: (K, K) -> bool) {
    forall x, y :: x in m && y in m && eq(x, y) ==> x == y
  }

  /** What a lookup of k finds: the item of the one key that equals k. */
  ghost function Lookup<K, I>(m: map<K, I>, eq: (K, K) -> bool, k: K): Option<I> {
    if x :| x in m && eq(k, x) then Some(m[x]) else None
  }

  ghost function Without<K, I>(m: map<K, I>, eq: (K, K) -> bool, k: K): map<K, I> {
    map x | x in m && !eq(k, x) :: m[x]
  }

  ghost function Bind<K, I>(m: map<K, I>, eq: (K, K) -> bool, k: K, item: I): map<K, I> {
    Without(m, eq, k)[k := item]
  }

  lemma LookupIs<K(!new), I>(m: map<K, I>, eq: (K, K) -> bool, k: K, x: K)
    requires Equivalence(eq) && Distinct(m, eq)
    requires x in m && eq(k, x)
    ensures Lookup(m, eq, k) == Some(m[x])
  {
    forall y | y in m && eq(k, y) ensures y == x {
      assert Via(y, k, x);
    }
  }

  /** Removing k hides exactly the keys equal to k. */
  lemma LookupWithout<K(!new), I>(m: map<K, I>, eq: (K, K) -> bool, k: K, q: K)
    requires Equivalence(eq) && Distinct(m, eq)
    ensures Distinct(Without(m, eq, k), eq)
    ensures Lookup(Without(m, eq, k), eq, q) == if eq(k, q) then None else Lookup(m, eq, q)
  {
    var w := Without(m, eq, k);
    if x :| x in m && eq(q, x) {
      LookupIs(m, eq, q, x);
      if eq(k, q) {
        forall y | y in w ensures !eq(q, y) {
          assert Via(k, q, y);
        }
      } else {
        assert Via(k, x, q);
        LookupIs(w, eq, q, x);
      }
    }
  }

  /** Binding k changes the answer for exactly the keys equal to k. */
  lemma LookupBind<K(!new), I>(m: map<K, I>, eq: (K, K) -> bool, k: K, item: I, q: K)
    requires Equivalence(eq) && Distinct(m, eq)
    ensures Distinct(Bind(m, eq, k, item), eq)
    ensures Lookup(Bind(m, eq, k, item), eq, q) == if eq(k, q) then Some(item) else Lookup(m, eq, q)
  {
    var b := Bind(m, eq, k, item);
    LookupWithout(m, eq, k, q);
    if eq(k, q) {
      LookupIs(b, eq, q, k);
    } else if x :| x in b && eq(q, x) {
      assert x != k;
      LookupIs(b, eq, q, x);
      LookupIs(m, eq, q, x);
    }
  }
}
