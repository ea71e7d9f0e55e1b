/** The byte order that strcmp gives to C strings. */
module Ordering {
  function Strcmp(a: string, b: string): int {
    if a == [] && b == [] then 0
    else if a == [] then -1
    else if b == [] then 1
    else if a[0] != b[0] then a[0] as int - b[0] as int
    else Strcmp(a[1..], b[1..])
  }

  function Lower(c: char): char {
    if 'A' <= c <= 'Z' then (c as int + 32) as char else c
  }

  /** strcasecmp(a, b) == 0 */
  predicate SameIgnoringCase(a: string, b: string) {
    |a| == |b| && forall i :: 0 <= i < |a| ==> Lower(a[i]) == Lower(b[i])
  }

  predicate AtMost(a: string, b: string) {
    Strcmp(a, b) <= 0
  }

  /** a and b agree up to position k, where a ends first or has the smaller character. */
  ghost predicate BeforeAt(a: string, b: string, k: nat) {
    && k <= |a| && k < |b| && a[..k] == b[..k]
    && (k == |a| || a[k] < b[k])
  }

  /** Lexicographic order by character codes. */
  ghost predicate Before(a: string, b: string) {
    exists k :: BeforeAt(a, b, k)
  }

  /** strcmp is negative exactly when a comes before b. */
  lemma {:induction false} StrcmpIsLexicographic(a: string, b: string)
    ensures Strcmp(a, b) < 0 <==> Before(a, b)
  {
    forall k: nat | BeforeAt(a, b, k) ensures k == 0 || (a != [] && b != [] && a[0] == b[0]) {
      if k > 0 {
        assert a[..k][0] == a[0] && b[..k][0] == b[0];
      }
    }
    if a != [] && b != [] && a[0] == b[0] {
      StrcmpIsLexicographic(a[1..], b[1..]);
      assert a == [a[0]] + a[1..] && b == [b[0]] + b[1..];
      if k: nat :| BeforeAt(a[1..], b[1..], k) {
        assert a[..k + 1] == [a[0]] + a[1..][..k] && b[..k + 1] == [b[0]] + b[1..][..k];
        assert BeforeAt(a, b, k + 1);
      }
      if k: nat :| BeforeAt(a, b, k) {
        assert k > 0;
        assert a[1..][..k - 1] == a[..k][1..] && b[1..][..k - 1] == b[..k][1..];
        assert BeforeAt(a[1..], b[1..], k - 1);
      }
    } else if Strcmp(a, b) < 0 {
      assert BeforeAt(a, b, 0);
    }
  }

  lemma AtMostIsLexicographic(a: string, b: string)
    ensures AtMost(a, b) <==> !Before(b, a)
  {
    Swapped(a, b);
    StrcmpIsLexicographic(b, a);
  }

  lemma {:induction false} Swapped(a: string, b: string)
    ensures Strcmp(a, b) == -Strcmp(b, a)
    ensures Strcmp(a, b) == 0 <==> a == b
  {
    if a != [] && b != [] && a[0] == b[0] {
      Swapped(a[1..], b[1..]);
      assert a == [a[0]] + a[1..] && b == [b[0]] + b[1..];
    }
  }

  lemma {:induction false} Transitive(a: string, b: string, c: string)
    requires AtMost(a, b) && AtMost(b, c)
    ensures AtMost(a, c)
  {
    if a != [] && b != [] && c != [] && a[0] == b[0] == c[0] {
      Transitive(a[1..], b[1..], c[1..]);
    }
  }
}
